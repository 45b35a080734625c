/**
 * Resolution of the options that decide an entry's lifetime: the call's
 * options are deep-merged over the defaults, then three relative TTLs in
 * milliseconds are derived from the merged options.
 *
 * Durations arrive already as milliseconds; turning an option (absent, or a
 * duration such as '2h') into milliseconds is the job of `resolveTtl`, which
 * is passed in as a parameter.
 */
module CacheOptions {
  import opened Optional

  datatype GracefulRetain = GracefulRetain(enabled: Option<bool>, duration: Option<nat>)

  /** The recognised options; an absent field is `None`. */
  datatype RawOptions = RawOptions(
    ttl: Option<nat>,
    gracefulRetain: Option<GracefulRetain>,
    earlyExpiration: Option<real>,
    suppressRemoteCacheErrors: Option<bool>)

  const NoOptions := RawOptions(None, None, None, None)

  /** One field of a deep merge: the call's value when present, else the default. */
  function Override<T>(call: Option<T>, default: Option<T>): (r: Option<T>)
    ensures call.Some? ==> r == call
    ensures call.None? ==> r == default
  {
    if call.Some? then call else default
  }

  /** The recognised options, each leaf of the nested graceful-retain object on its own. */
  datatype Field = Ttl | GraceEnabled | GraceDuration | EarlyExpiration | SuppressRemoteCacheErrors

  /** A field's value, whatever its type. */
  datatype FieldValue = Millis(ms: nat) | Flag(on: bool) | Fraction(f: real)

  /** The value of one field; absent when the field, or the object holding it, is not set. */
  function Get(o: RawOptions, field: Field): Option<FieldValue> {
    match field
    case Ttl => if o.ttl.Some? then Some(Millis(o.ttl.value)) else None
    case GraceEnabled =>
      if o.gracefulRetain.Some? && o.gracefulRetain.value.enabled.Some?
      then Some(Flag(o.gracefulRetain.value.enabled.value)) else None
    case GraceDuration =>
      if o.gracefulRetain.Some? && o.gracefulRetain.value.duration.Some?
      then Some(Millis(o.gracefulRetain.value.duration.value)) else None
    case EarlyExpiration =>
      if o.earlyExpiration.Some? then Some(Fraction(o.earlyExpiration.value)) else None
    case SuppressRemoteCacheErrors =>
      if o.suppressRemoteCacheErrors.Some? then Some(Flag(o.suppressRemoteCacheErrors.value)) else None
  }

  /** A leaf of a possibly absent graceful-retain object: absent when the object is. */
  function EnabledIn(g: Option<GracefulRetain>): Option<bool> {
    if g.Some? then g.value.enabled else None
  }

  function DurationIn(g: Option<GracefulRetain>): Option<nat> {
    if g.Some? then g.value.duration else None
  }

  /**
   * Nested objects are merged field by field, not replaced as a whole: each
   * leaf is the call's when the call sets it, else the default's.
   */
  function MergeGracefulRetain(call: Option<GracefulRetain>, default: Option<GracefulRetain>): (r: Option<GracefulRetain>)
    ensures r.Some? <==> call.Some? || default.Some?
    ensures EnabledIn(r) == Override(EnabledIn(call), EnabledIn(default))
    ensures DurationIn(r) == Override(DurationIn(call), DurationIn(default))
  {
    match (call, default)
    case (Some(c), Some(d)) => Some(GracefulRetain(Override(c.enabled, d.enabled), Override(c.duration, d.duration)))
    case (Some(_), None) => call
    case (None, _) => default
  }

  /** The deep merge of the call's options over the defaults. */
  function Merge(options: RawOptions, defaults: RawOptions): (r: RawOptions)
    ensures forall field :: Get(r, field) == Override(Get(options, field), Get(defaults, field))
    ensures r.gracefulRetain.Some? <==> options.gracefulRetain.Some? || defaults.gracefulRetain.Some?
  {
    RawOptions(
      Override(options.ttl, defaults.ttl),
      MergeGracefulRetain(options.gracefulRetain, defaults.gracefulRetain),
      Override(options.earlyExpiration, defaults.earlyExpiration),
      Override(options.suppressRemoteCacheErrors, defaults.suppressRemoteCacheErrors))
  }

  /**
   * Merge precedence, field by field and inside graceful retain too: every
   * field given in the call wins, every absent one falls back to the default.
   */
  lemma MergePrecedence(options: RawOptions, defaults: RawOptions, field: Field)
    ensures Get(options, field).Some? ==> Get(Merge(options, defaults), field) == Get(options, field)
    ensures Get(options, field).None? ==> Get(Merge(options, defaults), field) == Get(defaults, field)
    ensures Merge(options, defaults).gracefulRetain.Some?
            <==> options.gracefulRetain.Some? || defaults.gracefulRetain.Some?
  {
  }

  /** Merging with no options is the identity on either side, and merging is idempotent. */
  lemma MergeIdentity(o: RawOptions)
    ensures Merge(o, NoOptions) == o
    ensures Merge(NoOptions, o) == o
    ensures Merge(o, o) == o
  {
  }

  /**
   * Merging is associative, so layering call over store over global options
   * does not depend on which two layers are merged first.
   */
  lemma MergeAssociative(a: RawOptions, b: RawOptions, c: RawOptions)
    ensures Merge(a, Merge(b, c)) == Merge(Merge(a, b), c)
  {
  }

  /**
   * The right-nested repetition of the two-layer merge, layers in decreasing
   * precedence: as when the defaults are themselves store options merged over
   * global ones.
   */
  function MergeAll(layers: seq<RawOptions>): (r: RawOptions)
    ensures forall field :: Get(r, field).Some?
                            <==> exists i :: 0 <= i < |layers| && Get(layers[i], field).Some?
  {
    if |layers| == 0 then NoOptions else Merge(layers[0], MergeAll(layers[1..]))
  }

  /** The index of the first layer that sets `field`, or `|layers|` when none does. */
  function FirstSetting(layers: seq<RawOptions>, field: Field): (i: nat)
    ensures i <= |layers|
    ensures i < |layers| ==> Get(layers[i], field).Some?
    ensures forall j :: 0 <= j < i ==> Get(layers[j], field).None?
  {
    if |layers| == 0 then 0
    else if Get(layers[0], field).Some? then 0
    else 1 + FirstSetting(layers[1..], field)
  }

  /** Each field of the layered merge comes from the highest-precedence layer that sets it. */
  lemma {:induction false} MergeAllTakesFirstSetting(layers: seq<RawOptions>, field: Field)
    ensures var i := FirstSetting(layers, field);
            Get(MergeAll(layers), field) == if i < |layers| then Get(layers[i], field) else None
    decreases |layers|
  {
    if |layers| > 0 {
      var rest := layers[1..];
      MergePrecedence(layers[0], MergeAll(rest), field);
      if Get(layers[0], field).None? {
        MergeAllTakesFirstSetting(rest, field);
        var i := FirstSetting(rest, field);
        if i < |rest| {
          assert rest[i] == layers[1 + i];
        }
      }
    }
  }

  /** The options with the three TTLs derived from them. */
  datatype ResolvedOptions = ResolvedOptions(
    options: RawOptions,
    logicalTtl: nat,
    physicalTtl: nat,
    earlyExpireTtl: Option<real>)

  /** Graceful retain is on only when the merged options say `enabled: true`. */
  function IsGracefulRetainEnabled(o: RawOptions): (r: bool)
    ensures r <==> Get(o, GraceEnabled) == Some(Flag(true))
  {
    o.gracefulRetain.Some? && o.gracefulRetain.value.enabled == Some(true)
  }

  /**
   * The early-refresh TTL: the fraction of the logical TTL, only for a fraction
   * strictly between 0 and 1; any other fraction, or none, disables it.
   */
  function ResolveEarlyExpireTtl(fraction: Option<real>, logicalTtl: nat): (r: Option<real>)
    ensures r.Some? <==> fraction.Some? && 0.0 < fraction.value < 1.0
    ensures r.Some? ==> r.value == logicalTtl as real * fraction.value
    ensures r.Some? ==> 0.0 <= r.value <= logicalTtl as real
    ensures r.Some? && logicalTtl > 0 ==> 0.0 < r.value < logicalTtl as real
  {
    if fraction.None? || fraction.value == 0.0 then None
    else if fraction.value <= 0.0 || fraction.value >= 1.0 then None
    else Some(logicalTtl as real * fraction.value)
  }

  /** The time the underlying store keeps the record: the grace duration when grace is on. */
  function ResolvePhysicalTtl(o: RawOptions, logicalTtl: nat, resolveTtl: Option<nat> -> nat): (r: nat)
    ensures IsGracefulRetainEnabled(o) ==> r == resolveTtl(o.gracefulRetain.value.duration)
    ensures !IsGracefulRetainEnabled(o) ==> r == logicalTtl
  {
    if IsGracefulRetainEnabled(o) then resolveTtl(o.gracefulRetain.value.duration) else logicalTtl
  }

  /** The constructor: merge the call's options over the defaults, then derive the TTLs. */
  function Resolve(options: RawOptions, defaults: RawOptions, resolveTtl: Option<nat> -> nat): (r: ResolvedOptions)
    ensures r.options == Merge(options, defaults)
    ensures r.logicalTtl == resolveTtl(Override(options.ttl, defaults.ttl))
    ensures IsGracefulRetainEnabled(r.options) ==> r.physicalTtl == resolveTtl(r.options.gracefulRetain.value.duration)
    ensures !IsGracefulRetainEnabled(r.options) ==> r.physicalTtl == r.logicalTtl
    ensures r.earlyExpireTtl.Some? <==> 0.0 < Override(options.earlyExpiration, defaults.earlyExpiration).GetOr(0.0) < 1.0
    ensures r.earlyExpireTtl.Some?
            ==> r.earlyExpireTtl.value == r.logicalTtl as real * r.options.earlyExpiration.value
  {
    var merged := Merge(options, defaults);
    var logicalTtl := resolveTtl(merged.ttl);
    ResolvedOptions(
      merged,
      logicalTtl,
      ResolvePhysicalTtl(merged, logicalTtl, resolveTtl),
      ResolveEarlyExpireTtl(merged.earlyExpiration, logicalTtl))
  }

  /** The absolute instant the value becomes stale if written at `now`. */
  function LogicalTtlFromNow(o: ResolvedOptions, now: int): (r: int)
    ensures r - now == o.logicalTtl
  {
    now + o.logicalTtl
  }

  /** The absolute instant the store drops the record if written at `now`. */
  function PhysicalTtlFromNow(o: ResolvedOptions, now: int): (r: int)
    ensures r - now == o.physicalTtl
  {
    now + o.physicalTtl
  }

  /** The absolute instant an early refresh becomes due, when early refresh is on and non-zero. */
  function EarlyExpireTtlFromNow(o: ResolvedOptions, now: int): (r: Option<real>)
    ensures r.None? <==> o.earlyExpireTtl.None? || o.earlyExpireTtl.value == 0.0
    ensures r.Some? ==> r.value - now as real == o.earlyExpireTtl.value
  {
    if o.earlyExpireTtl.None? || o.earlyExpireTtl.value == 0.0 then None
    else Some(now as real + o.earlyExpireTtl.value)
  }

  /**
   * For options resolved by `Resolve`, the early-refresh instant, when there is
   * one, comes strictly before the logical expiration computed at the same `now`.
   */
  lemma EarlyInstantBeforeLogicalInstant(options: RawOptions, defaults: RawOptions,
                                         resolveTtl: Option<nat> -> nat, now: int)
    ensures var o := Resolve(options, defaults, resolveTtl);
            EarlyExpireTtlFromNow(o, now).Some?
            ==> now as real < EarlyExpireTtlFromNow(o, now).value < LogicalTtlFromNow(o, now) as real
  {
  }

  /**
   * For options resolved by `Resolve`, the store keeps the record until the
   * grace duration has passed when grace is on, and exactly until logical
   * expiration otherwise.
   */
  lemma PhysicalInstantFollowsGrace(options: RawOptions, defaults: RawOptions,
                                    resolveTtl: Option<nat> -> nat, now: int)
    ensures var o := Resolve(options, defaults, resolveTtl);
            if IsGracefulRetainEnabled(o.options)
            then PhysicalTtlFromNow(o, now) == now + resolveTtl(o.options.gracefulRetain.value.duration)
            else PhysicalTtlFromNow(o, now) == LogicalTtlFromNow(o, now)
  {
  }

  /** `resolveTtl` reads a duration already given in milliseconds as itself. */
  ghost predicate ResolvesMillisAsIs(resolveTtl: Option<nat> -> nat) {
    forall n: nat :: resolveTtl(Some(n)) == n
  }

  /**
   * The physical TTL is the grace duration on its own, not added to the
   * logical TTL: the store keeps a record at least until it goes stale
   * exactly when grace is off or its duration is at least the logical TTL.
   */
  lemma PhysicalOutlivesLogicalExactly(options: RawOptions, defaults: RawOptions,
                                       resolveTtl: Option<nat> -> nat, now: int)
    ensures var o := Resolve(options, defaults, resolveTtl);
            PhysicalTtlFromNow(o, now) >= LogicalTtlFromNow(o, now)
            <==> !IsGracefulRetainEnabled(o.options)
                 || resolveTtl(o.options.gracefulRetain.value.duration) >= o.logicalTtl
  {
  }

  /**
   * With ttl 1 h and a grace duration of 10 min, the store drops the record
   * 50 min before the value even goes stale.
   */
  lemma ShortGraceEvictsFreshValue(resolveTtl: Option<nat> -> nat, now: int)
    requires ResolvesMillisAsIs(resolveTtl)
    ensures var defaults := RawOptions(Some(3600000), Some(GracefulRetain(Some(true), Some(600000))), None, None);
            var o := Resolve(NoOptions, defaults, resolveTtl);
            PhysicalTtlFromNow(o, now) == LogicalTtlFromNow(o, now) - 3000000
  {
  }
}
