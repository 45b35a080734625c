/**
 * Where the two pieces meet: an entry written by the cache takes its logical
 * instant from `LogicalTtlFromNow` and its early instant from
 * `EarlyExpireTtlFromNow`, each of which reads the clock on its own.
 */
module FreshEntry {
  import opened Optional
  import opened CacheEntry
  import opened CacheOptions

  /**
   * The entry written for `key` from resolved options `o`, with the clock read
   * at `logicalNow` for the logical instant and at `earlyNow` for the early one.
   */
  function NewEntry<V>(key: string, value: V, o: ResolvedOptions, logicalNow: int, earlyNow: int): (e: Entry<V>)
    ensures e.key == key && e.value == value
    ensures e.logicalExpiration == Some(logicalNow + o.logicalTtl)
    ensures e.earlyExpiration.Some? <==> o.earlyExpireTtl.Some? && o.earlyExpireTtl.value != 0.0
    ensures e.earlyExpiration.Some?
            ==> o.earlyExpireTtl.Some? && e.earlyExpiration.value == earlyNow as real + o.earlyExpireTtl.value
  {
    New(key, Item(value, Some(LogicalTtlFromNow(o, logicalNow)), EarlyExpireTtlFromNow(o, earlyNow)))
  }

  /**
   * With both instants taken from one clock reading, a freshly written entry
   * keeps the entry invariant (early expiration before logical expiration),
   * has early refresh exactly when the fraction lies in (0, 1) and the TTL is
   * positive, and is fresh at the instant it is written unless its TTL is
   * zero. The clock reads milliseconds since the epoch, so `now` is not
   * negative (an early instant of exactly 0 would read as "off").
   */
  lemma FreshEntryWellFormed<V>(options: RawOptions, defaults: RawOptions, resolveTtl: Option<nat> -> nat,
                                key: string, value: V, now: int)
    requires 0 <= now
    ensures var o := Resolve(options, defaults, resolveTtl);
            var e := NewEntry(key, value, o, now, now);
            && WellFormed(e)
            && (EarlyEnabled(e.earlyExpiration)
                <==> 0.0 < o.options.earlyExpiration.GetOr(0.0) < 1.0 && o.logicalTtl > 0)
            && (o.logicalTtl > 0 <==> !IsLogicallyExpired(e, now))
            && !IsEarlyExpired(e, now)
  {
  }

  /**
   * With two clock readings, the invariant holds exactly when the early
   * reading lags the logical one by less than the part of the TTL after the
   * early instant, `logicalTtl × (1 − fraction)`; in particular whenever the
   * early instant is computed first.
   */
  lemma TwoReadingsWellFormed<V>(options: RawOptions, defaults: RawOptions, resolveTtl: Option<nat> -> nat,
                                 key: string, value: V, logicalNow: int, earlyNow: int)
    ensures var o := Resolve(options, defaults, resolveTtl);
            var e := NewEntry(key, value, o, logicalNow, earlyNow);
            && (!EarlyEnabled(e.earlyExpiration) ==> WellFormed(e))
            && (EarlyEnabled(e.earlyExpiration)
                ==> (WellFormed(e)
                     <==> (earlyNow - logicalNow) as real
                          < o.logicalTtl as real * (1.0 - o.options.earlyExpiration.value)))
            && (earlyNow <= logicalNow ==> WellFormed(e))
  {
  }

  /**
   * Readings one millisecond apart are enough to break the invariant: with
   * ttl 100 and fraction 0.99, reading 1000 for the logical instant and 1001
   * for the early one puts both instants at 1100.
   */
  lemma OneMillisecondGapBreaksInvariant<V>(resolveTtl: Option<nat> -> nat, key: string, value: V)
    requires ResolvesMillisAsIs(resolveTtl)
    ensures var defaults := RawOptions(Some(100), None, Some(0.99), None);
            var e := NewEntry(key, value, Resolve(NoOptions, defaults, resolveTtl), 1000, 1001);
            EarlyEnabled(e.earlyExpiration) && !WellFormed(e)
  {
  }

  /** Defaults of ttl 60 s and fraction 0.5 put the early refresh 30 s after the write. */
  lemma DefaultFractionApplies<V>(resolveTtl: Option<nat> -> nat, key: string, value: V, now: int)
    requires ResolvesMillisAsIs(resolveTtl)
    ensures var defaults := RawOptions(Some(60000), None, Some(0.5), None);
            var o := Resolve(NoOptions, defaults, resolveTtl);
            NewEntry(key, value, o, now, now).earlyExpiration == Some(now as real + 30000.0)
  {
  }

  /** A call-level fraction of 0.25 overrides the default 0.5: early refresh after 15 s. */
  lemma CallFractionOverridesDefault<V>(resolveTtl: Option<nat> -> nat, key: string, value: V, now: int)
    requires ResolvesMillisAsIs(resolveTtl)
    ensures var defaults := RawOptions(Some(60000), None, Some(0.5), None);
            var call := NoOptions.(earlyExpiration := Some(0.25));
            var o := Resolve(call, defaults, resolveTtl);
            NewEntry(key, value, o, now, now).earlyExpiration == Some(now as real + 15000.0)
  {
  }

  /** A fraction of exactly 1 or exactly 0 leaves the written entry without early expiration. */
  lemma BoundaryFractionsDisableEarlyExpiration<V>(resolveTtl: Option<nat> -> nat, key: string, value: V,
                                                   now: int, fraction: real)
    requires fraction == 0.0 || fraction == 1.0
    ensures var defaults := RawOptions(Some(100), None, None, None);
            var call := NoOptions.(earlyExpiration := Some(fraction));
            NewEntry(key, value, Resolve(call, defaults, resolveTtl), now, now).earlyExpiration == None
  {
  }
}
