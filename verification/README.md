# Bentocache expiration policy in Dafny

This project models the two pure parts of the bentocache multi-tier cache that
decide how long a cached value lives:

- **The cache entry** (`CacheEntry`, file `cache_entry.dfy`). A value record
  `{key, value, logicalExpiration, earlyExpiration}`, with:
  - the two time predicates that classify a key as fresh, due for an early
    background refresh, or logically expired (stale);
  - the two transitions that push expiry back after a failed refresh
    (`applyFallbackDuration`) and force expiry (`expire`);
  - the serialize / `fromDriver` round trip through a pluggable codec.
- **The options resolver** (`CacheOptions`, file `cache_options.dfy`). It
  deep-merges a call's options over the defaults and derives three TTLs:
  - the logical TTL;
  - the physical TTL, which is the grace duration when graceful retain is on;
  - the early-expiration TTL, which is the logical TTL times a fraction
    strictly between 0 and 1.

  It also has the helpers that turn these TTLs into absolute instants.

`fresh_entry.dfy` (module `FreshEntry`) joins the two pieces. The two instants
of an entry come from two helpers, and each helper reads the clock on its own.
- When both readings agree, an entry keeps the invariant
  `earlyExpiration < logicalExpiration`. It is fresh when written unless its
  TTL is 0.
- With two readings, the invariant holds exactly when the gap between them is
  less than `logicalTtl × (1 − fraction)`. A 1 ms gap can break it.

The module also restates the concrete resolutions the test suite checks:
- 0.5 of 60 s gives 30 s;
- a call-level 0.25 overrides a default of 0.5;
- a fraction of exactly 0 or exactly 1 disables early refresh.

`optional.dfy` holds the `Option` type, which stands for JavaScript's
`undefined`.

The model has no clock, codec, or duration parser:
- The clock is an explicit `now: int` parameter, in milliseconds since the epoch.
- The codec is a `Serializer` value made of two functions. The round-trip
  lemma requires only that the codec reads back the one record the entry
  writes (`ReadsBack`). It assumes nothing about any particular codec.
- The duration parser `resolveTtl` is a function parameter of `Resolve`.

The physical TTL is the grace duration on its own, not added to the logical
TTL. So a grace duration shorter than the TTL makes the store evict a value
that is still fresh (`CacheOptions.PhysicalOutlivesLogicalExactly`).

### Nested options merge field by field

`defu` merges nested objects field by field. So `CacheOptions.Merge` merges
`gracefulRetain.enabled` and `gracefulRetain.duration` independently, and
`CacheOptions.MergePrecedence` states this for every field.

## Model

| member | source | states |
|---|---|---|
| `CacheEntry.New` | packages/bentocache/src/cache/cache_entry/cache_entry.ts:27-49 | a freshly constructed entry carries the given key and exactly the value, logical and early expiration of the record it was built from (the getters are the datatype's fields) |
| `CacheEntry.NewToItemInverse` | packages/bentocache/src/cache/cache_entry/cache_entry.ts:27-33 | building an entry from a record and taking the record back out of it are mutually inverse |
| `CacheEntry.IsLogicallyExpired` | packages/bentocache/src/cache/cache_entry/cache_entry.ts:51-53 | an entry is logically expired exactly when it has a logical expiration and `now` has reached it; an absent one is never reached |
| `CacheEntry.LogicalExpiryIsPermanent` | packages/bentocache/src/cache/cache_entry/cache_entry.ts:51-53 | once logically expired, an entry stays expired at every later instant |
| `CacheEntry.IsEarlyExpired` | packages/bentocache/src/cache/cache_entry/cache_entry.ts:55-65 | early-expired exactly when early expiration is set and non-zero and `earlyExpiration <= now < logicalExpiration` (no upper bound when the logical expiration is absent); never when early expiration is absent or 0 |
| `CacheEntry.NeverEarlyAndLogicallyExpired` | packages/bentocache/src/cache/cache_entry/cache_entry.ts:60-62 | no instant makes an entry both early-expired and logically expired |
| `CacheEntry.EarlyExpiryLastsUntilLogicalExpiry` | packages/bentocache/src/cache/cache_entry/cache_entry.ts:55-65 | once early-expired, an entry stays early-expired at every later instant until it becomes logically expired |
| `CacheEntry.ApplyFallbackDuration` | packages/bentocache/src/cache/cache_entry/cache_entry.ts:71-75 | the fallback moves a present logical expiration later by exactly the duration (an absent one stays unreachable), clears early expiration to 0 so the entry is never early-expired afterwards, and keeps key and value |
| `CacheEntry.FallbackShiftsLogicalExpiry` | packages/bentocache/src/cache/cache_entry/cache_entry.ts:71-75 | after a fallback of `d`, the entry is stale at `t + d` exactly when it was stale at `t` before |
| `CacheEntry.Expire` | packages/bentocache/src/cache/cache_entry/cache_entry.ts:77-81 | after `expire(now)` the entry is logically expired at `now` and at exactly the instants from `now - 100` on, has early expiration set to 0 so it is never early-expired, and keeps key and value |
| `CacheEntry.ExpireForgetsHistory` | packages/bentocache/src/cache/cache_entry/cache_entry.ts:71-81 | expiring twice is expiring once, and expiring after a fallback gives the same entry as expiring without it |
| `CacheEntry.FromDriver` | packages/bentocache/src/cache/cache_entry/cache_entry.ts:67-69 | reading a payload succeeds exactly when the codec accepts it, and the entry then has the given key and the decoded record's fields |
| `CacheEntry.Serialize` | packages/bentocache/src/cache/cache_entry/cache_entry.ts:83-89 | the payload is the codec's encoding of the value and both instants, without the key |
| `CacheEntry.FromDriverValueOnly` | tests/cache/cache.spec.ts:282-293 | a payload that decodes to a bare `{value}` record gives an entry with that value that is never logically expired and never early-expired, so it is served without recomputing |
| `CacheEntry.SerializeRoundTrip` | packages/bentocache/src/cache/cache_entry/cache_entry.ts:67-89 | when the codec reads back the record the entry writes, `fromDriver(e.key, e.serialize())` gives back `e`: same key, value, logical and early expiration |
| `CacheEntry.FromDriverRekeys` | packages/bentocache/src/cache/cache_entry/cache_entry.ts:83-89 | the key is not in the payload: when the codec reads back the written record, reading it under another key yields the same entry re-keyed |
| `CacheOptions.Override` | src/cache_options.ts:13 | one field of the merge: the call's value when given, the default otherwise |
| `CacheOptions.MergeGracefulRetain` | src/cache_options.ts:13 | the nested graceful-retain object is present when either side has one, and each of its two leaves is the call's when set, else the default's |
| `CacheOptions.Merge` | src/cache_options.ts:13 | every field of the merged options, read through the field accessor, is the call's when the call sets it and the default's otherwise |
| `CacheOptions.MergePrecedence` | src/cache_options.ts:13 | every field, including both nested graceful-retain fields, is taken from the call options when present and falls back to the defaults when absent |
| `CacheOptions.MergeIdentity` | src/cache_options.ts:12-13 | merging over or under no options changes nothing, and merging options with themselves changes nothing |
| `CacheOptions.MergeAssociative` | src/cache_options.ts:13 | merging call over store over global options gives the same result whichever two layers are merged first |
| `CacheOptions.MergeAll` | src/cache_options.ts:13 | the right-nested repetition of the two-layer merge of line 13, as when the defaults are themselves merged store and global options: a field is set in the result exactly when some layer sets it |
| `CacheOptions.FirstSetting` | src/cache_options.ts:13 | finds the highest-precedence layer that sets a field: that layer sets it and no earlier layer does |
| `CacheOptions.MergeAllTakesFirstSetting` | src/cache_options.ts:13 | in a merge of any number of layers, each field comes from the highest-precedence layer that sets it, and is absent when none does |
| `CacheOptions.IsGracefulRetainEnabled` | src/cache_options.ts:44-46 | graceful retain is on exactly when the merged options set `gracefulRetain.enabled` to true |
| `CacheOptions.ResolveEarlyExpireTtl` | src/cache_options.ts:20-32 | the early TTL is defined exactly when the fraction is present and strictly between 0 and 1 (so it is undefined for absent, 0, negative, 1 or more); it then equals TTL × fraction and lies strictly between 0 and the logical TTL when that is positive |
| `CacheOptions.ResolvePhysicalTtl` | src/cache_options.ts:38-42 | the physical TTL is the resolved grace duration when graceful retain is on, the logical TTL otherwise |
| `CacheOptions.Resolve` | src/cache_options.ts:12-18 | the constructor: its options are the merge of the call's over the defaults; the logical TTL resolves the merged ttl; physical and early TTLs follow the two rules above on the merged options |
| `CacheOptions.LogicalTtlFromNow` | src/cache_options.ts:48-50 | the logical instant lies exactly the logical TTL after `now` |
| `CacheOptions.PhysicalTtlFromNow` | src/cache_options.ts:52-54 | the physical instant lies exactly the physical TTL after `now` |
| `CacheOptions.EarlyExpireTtlFromNow` | src/cache_options.ts:56-62 | the early instant is undefined exactly when the early TTL is undefined or 0, and otherwise lies the early TTL after `now` |
| `CacheOptions.EarlyInstantBeforeLogicalInstant` | src/cache_options.ts:20-62 | for resolved options, a defined early instant lies strictly after `now` and strictly before the logical instant computed at the same `now` |
| `CacheOptions.PhysicalInstantFollowsGrace` | src/cache_options.ts:38-54 | for resolved options, the physical instant is `now` plus the resolved grace duration when graceful retain is on, and coincides with the logical instant otherwise |
| `CacheOptions.PhysicalOutlivesLogicalExactly` | src/cache_options.ts:38-54 | for resolved options, the physical instant is at or after the logical instant exactly when graceful retain is off or the resolved grace duration is at least the logical TTL |
| `CacheOptions.ShortGraceEvictsFreshValue` | src/cache_options.ts:38-54 | with ttl 1 h and graceful retain on for 10 min, the physical instant comes 50 min before the logical instant |
| `FreshEntry.NewEntry` | src/cache_options.ts:48-62 | an entry written from resolved options carries the given key and value, its logical instant is the logical TTL after the logical clock reading, and its early instant is present exactly when the early TTL is defined and non-zero, and is then the early TTL after the early clock reading |
| `FreshEntry.FreshEntryWellFormed` | src/cache_options.ts:20-62 | with both instants from one clock reading `now`, an entry written from freshly resolved options has `earlyExpiration < logicalExpiration` whenever early refresh is on; early refresh is on exactly when the fraction is in (0, 1) and the TTL is positive; the entry is not logically expired at `now` exactly when the TTL is positive; it is never early-expired at `now` |
| `FreshEntry.TwoReadingsWellFormed` | src/cache_options.ts:48-62 | with separate clock readings for the two instants, an entry with early refresh on keeps `earlyExpiration < logicalExpiration` exactly when the early reading lags the logical one by less than `logicalTtl × (1 − fraction)`, and always when the early reading comes first |
| `FreshEntry.OneMillisecondGapBreaksInvariant` | src/cache_options.ts:48-62 | with ttl 100 and fraction 0.99, logical reading 1000 and early reading 1001 give an entry whose early instant is not before its logical instant |
| `FreshEntry.DefaultFractionApplies` | tests/cache/cache.spec.ts:575-590 | with defaults ttl 60 s and fraction 0.5, the written entry's early expiration is `now + 30000` |
| `FreshEntry.CallFractionOverridesDefault` | tests/cache/cache.spec.ts:592-607 | a call-level fraction 0.25 over a default 0.5 puts early expiration at `now + 15000` |
| `FreshEntry.BoundaryFractionsDisableEarlyExpiration` | tests/cache/cache.spec.ts:465-473 | a fraction of exactly 0 or exactly 1 leaves the written entry without early expiration |

## Left out

- Wall-clock time: `Date.now()` becomes the `now` parameter.
- `isEarlyExpired` reads the clock twice, once in its own body and once through
  `isLogicallyExpired`. The model reads it once, so it does not model the clock
  advancing between those two reads.
- `resolveTtl` (in `helpers.js`) is not part of this model. It parses duration
  strings such as '2h' and resolves absent durations. Here it is a parameter
  `resolveTtl: Option<nat> -> nat`, and durations in the options are
  milliseconds already. The test-derived lemmas require only that it reads a
  millisecond number as itself.
- JavaScript numbers:
  - Instants are unbounded integers. TTLs are non-negative integers, so a
    negative ttl is not modelled. Neither has a 2^53 limit.
  - The early fraction and its product with the TTL are exact reals, with no
    IEEE rounding.
  - `earlyExpiration` is a real, because TTL × fraction need not be whole.
- The codec: it is a pair of functions of the `Serializer` datatype. A
  malformed payload makes `deserialize` return `None` where the real codec
  throws.
- An absent logical expiration, and the NaN that a fallback adds to it, are
  both `None`. Both compare false with every clock reading. The model does not
  follow a JSON codec writing NaN as `null`. That is the codec's behaviour, and
  the codec is abstract here.
- The serializer reference inside `CacheEntry`: the entry does not hold it. It
  is passed to `Serialize` and `FromDriver` explicitly.
- `applyFallbackDuration` and `expire` update the object in place and return
  it. The model returns the updated value instead.
- `defu` internals:
  - `null` fields, which `defu` also skips, are not modelled. Only absent fields
    are.
  - Array concatenation is not modelled, because no recognised option is an
    array.
- `RawCacheOptions` other than `ttl`, `gracefulRetain`, `earlyExpiration` and
  `suppressRemoteCacheErrors`: `types/main.js`, which declares the rest, is not
  part of this model.
- `FreshEntry.FreshEntryWellFormed` requires `0 <= now`. An early instant of
  exactly 0 reads as "off" in the source. So at a negative clock reading, early
  refresh could silently switch off. Epoch milliseconds are never negative.
- `FreshEntry.NewEntry` follows how the orchestrator builds an entry: both
  instants come from the same resolved options, through `logicalTtlFromNow` and
  `earlyExpireTtlFromNow`. Each of these reads the clock, so the entry takes
  one reading per instant. The orchestrator's own source is not part of this
  model, so the order of the two readings is not known.
- `FreshEntry.FreshEntryWellFormed` covers only the case where both clock
  readings agree. `FreshEntry.TwoReadingsWellFormed` states the general
  condition, and `FreshEntry.OneMillisecondGapBreaksInvariant` shows that a
  1 ms gap can break the invariant.
- Out of scope, because all of it is asynchronous I/O and concurrency:
  - the orchestrator (`get`, `getOrSet`, `set`, `delete`, the batch variants,
    L1/L2 read-repair);
  - the stampede lock;
  - the invalidation bus;
  - the storage drivers.
- `src/types/options.ts`: driver configuration types with no logic.
- `test_helpers/index.ts`: timer-based test factories.
- `playground/src/cache.ts`: bootstrap wiring.
