/**
 * A cache entry as stored in a driver: a key, an opaque value and two absolute
 * instants in milliseconds. The entry decides on its own whether it is fresh,
 * due for an early (background) refresh, or logically expired.
 *
 * The clock is an explicit `now` parameter, and an entry is an immutable value:
 * each transition returns the updated entry.
 */
module CacheEntry {
  import opened Optional

  /**
   * The record a serializer writes to and reads from a driver. The key is not
   * part of it: the driver stores the record under the key.
   *
   * A decoded record need not carry a logical expiration (a payload holding
   * only `{value}` is accepted); `None` stands for that absent number, which
   * no clock reading ever reaches.
   */
  datatype Item<V> = Item(value: V, logicalExpiration: Option<int>, earlyExpiration: Option<real>)

  /**
   * The pluggable codec. `deserialize` yields `None` where the real codec throws
   * (a malformed payload).
   */
  datatype Serializer<!V> = Serializer(serialize: Item<V> -> string, deserialize: string -> Option<Item<V>>)

  /** The codec reads back exactly the record `item` it wrote. */
  ghost predicate ReadsBack<V>(s: Serializer<V>, item: Item<V>) {
    s.deserialize(s.serialize(item)) == Some(item)
  }

  /**
   * `logicalExpiration` is `None` when the stored record had no number there.
   * `earlyExpiration` is `None` when it was never set (early refresh disabled
   * by the options) and `Some(0.0)` once a transition has cleared it.
   */
  datatype Entry<V> = Entry(key: string, value: V, logicalExpiration: Option<int>, earlyExpiration: Option<real>)

  /** JavaScript truthiness of the early-expiration instant: absent and 0 are both "off". */
  predicate EarlyEnabled(early: Option<real>) {
    early.Some? && early.value != 0.0
  }

  /** The invariant every entry built from resolved options satisfies. */
  predicate WellFormed<V>(e: Entry<V>) {
    EarlyEnabled(e.earlyExpiration)
    ==> e.logicalExpiration.Some? && e.earlyExpiration.value < e.logicalExpiration.value as real
  }

  /** Builds an entry from a stored record and the key it was stored under. */
  function New<V>(key: string, item: Item<V>): (e: Entry<V>)
    ensures e.key == key && e.value == item.value
    ensures e.logicalExpiration == item.logicalExpiration
    ensures e.earlyExpiration == item.earlyExpiration
  {
    Entry(key, item.value, item.logicalExpiration, item.earlyExpiration)
  }

  /** The record `serialize` hands to the codec: every field but the key. */
  function ToItem<V>(e: Entry<V>): Item<V> {
    Item(e.value, e.logicalExpiration, e.earlyExpiration)
  }

  /** Building an entry and taking its record apart again are inverse operations. */
  lemma NewToItemInverse<V>(key: string, item: Item<V>, e: Entry<V>)
    ensures ToItem(New(key, item)) == item
    ensures New(e.key, ToItem(e)) == e
  {
  }

  /**
   * The value is stale once the clock reaches the logical expiration; an absent
   * logical expiration compares false with every clock reading.
   */
  function IsLogicallyExpired<V>(e: Entry<V>, now: int): (r: bool)
    ensures r <==> e.logicalExpiration.Some? && e.logicalExpiration.value <= now
  {
    match e.logicalExpiration
    case None => false
    case Some(t) => now >= t
  }

  /** Once logically expired, an entry stays expired as the clock advances. */
  lemma LogicalExpiryIsPermanent<V>(e: Entry<V>, t1: int, t2: int)
    requires t1 <= t2 && IsLogicallyExpired(e, t1)
    ensures IsLogicallyExpired(e, t2)
  {
  }

  /**
   * Due for a background refresh: early expiration is set, has been reached,
   * and the value is not yet logically expired.
   */
  function IsEarlyExpired<V>(e: Entry<V>, now: int): (r: bool)
    ensures r <==> EarlyEnabled(e.earlyExpiration)
                   && e.earlyExpiration.value <= now as real
                   && (e.logicalExpiration.None? || now < e.logicalExpiration.value)
    ensures !EarlyEnabled(e.earlyExpiration) ==> !r
  {
    if !EarlyEnabled(e.earlyExpiration) then false
    else if IsLogicallyExpired(e, now) then false
    else now as real >= e.earlyExpiration.value
  }

  /** No instant is both "due for early refresh" and "logically expired". */
  lemma NeverEarlyAndLogicallyExpired<V>(e: Entry<V>, now: int)
    ensures !(IsEarlyExpired(e, now) && IsLogicallyExpired(e, now))
  {
  }

  /** Early expiry, once reached, lasts until logical expiry takes over. */
  lemma EarlyExpiryLastsUntilLogicalExpiry<V>(e: Entry<V>, t1: int, t2: int)
    requires t1 <= t2 && IsEarlyExpired(e, t1)
    ensures IsEarlyExpired(e, t2) <==> !IsLogicallyExpired(e, t2)
  {
  }

  /**
   * Serves a stale value for `duration` more milliseconds after a failed
   * refresh: pushes the logical expiration back and stops early refreshes.
   * Adding to an absent logical expiration gives NaN, which, like the absent
   * number, no clock reading reaches; it stays `None`.
   */
  function ApplyFallbackDuration<V>(e: Entry<V>, duration: int): (r: Entry<V>)
    ensures r.key == e.key && r.value == e.value
    ensures e.logicalExpiration.Some?
            ==> r.logicalExpiration.Some? && r.logicalExpiration.value - e.logicalExpiration.value == duration
    ensures e.logicalExpiration.None? ==> r.logicalExpiration.None?
    ensures r.earlyExpiration == Some(0.0)
    ensures forall now :: !IsEarlyExpired(r, now)
    ensures WellFormed(r)
  {
    var logical := match e.logicalExpiration
      case None => None
      case Some(t) => Some(t + duration);
    e.(logicalExpiration := logical, earlyExpiration := Some(0.0))
  }

  /** After a fallback of `duration`, the entry is stale exactly `duration` later than before. */
  lemma FallbackShiftsLogicalExpiry<V>(e: Entry<V>, duration: int, now: int)
    ensures IsLogicallyExpired(ApplyFallbackDuration(e, duration), now + duration)
            == IsLogicallyExpired(e, now)
  {
  }

  /** Forces logical expiration: the entry is stale from 100 ms before `now` on. */
  function Expire<V>(e: Entry<V>, now: int): (r: Entry<V>)
    ensures r.key == e.key && r.value == e.value
    ensures IsLogicallyExpired(r, now)
    ensures forall t :: IsLogicallyExpired(r, t) <==> now - 100 <= t
    ensures r.earlyExpiration == Some(0.0)
    ensures forall t :: !IsEarlyExpired(r, t)
    ensures WellFormed(r)
  {
    e.(logicalExpiration := Some(now - 100), earlyExpiration := Some(0.0))
  }

  /** Expiring forgets every earlier expiration state, fallbacks included. */
  lemma ExpireForgetsHistory<V>(e: Entry<V>, duration: int, now: int)
    ensures Expire(Expire(e, now), now) == Expire(e, now)
    ensures Expire(ApplyFallbackDuration(e, duration), now) == Expire(e, now)
  {
  }

  /** The payload written to a driver: the codec's encoding of the value and both instants. */
  function Serialize<V>(e: Entry<V>, s: Serializer<V>): (r: string)
    ensures r == s.serialize(Item(e.value, e.logicalExpiration, e.earlyExpiration))
  {
    s.serialize(ToItem(e))
  }

  /**
   * Rebuilds an entry from a driver payload stored under `key`; `None` when
   * the codec rejects the payload.
   */
  function FromDriver<V>(key: string, payload: string, s: Serializer<V>): (r: Option<Entry<V>>)
    ensures r.Some? <==> s.deserialize(payload).Some?
    ensures r.Some? ==> r.value.key == key && ToItem(r.value) == s.deserialize(payload).value
  {
    match s.deserialize(payload)
    case None => None
    case Some(item) => Some(New(key, item))
  }

  /**
   * A payload that decodes to a bare `{value}` record gives an entry that is
   * never stale and never due for early refresh: it is served as is.
   */
  lemma FromDriverValueOnly<V>(key: string, payload: string, s: Serializer<V>, v: V, now: int)
    requires s.deserialize(payload) == Some(Item(v, None, None))
    ensures FromDriver(key, payload, s).Some?
    ensures FromDriver(key, payload, s).value.value == v
    ensures !IsLogicallyExpired(FromDriver(key, payload, s).value, now)
    ensures !IsEarlyExpired(FromDriver(key, payload, s).value, now)
  {
  }

  /**
   * When the codec reads back the record an entry writes, reading the payload
   * under the entry's key gives back the same entry.
   */
  lemma SerializeRoundTrip<V>(e: Entry<V>, s: Serializer<V>)
    requires ReadsBack(s, ToItem(e))
    ensures FromDriver(e.key, Serialize(e, s), s) == Some(e)
  {
  }

  /** The key is not part of the payload: reading it under another key re-keys the entry. */
  lemma FromDriverRekeys<V>(e: Entry<V>, key: string, s: Serializer<V>)
    requires ReadsBack(s, ToItem(e))
    ensures FromDriver(key, Serialize(e, s), s) == Some(e.(key := key))
  {
  }
}
