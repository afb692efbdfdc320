/**
 * The fixed-window rate limiter over the `rate_limits` table. A row counts
 * the requests of one (identifier, action) pair since its `window_start`;
 * the table is a map from the pair to its row. Times are epoch
 * milliseconds, the clock is a parameter, and a thrown database error is a
 * parameter naming the step that throws.
 */
module RateLimiter {
  import opened Wrappers

  datatype RateLimitConfig = RateLimitConfig(maxAttempts: nat, windowMinutes: nat)

  const MinuteMs: int := 60 * 1000

  /** `RATE_LIMITS[action]`. */
  function RateLimits(action: string): (r: Option<RateLimitConfig>)
    ensures r.Some? ==> r.value.maxAttempts >= 1 && r.value.windowMinutes >= 1
  {
    if action == "login" then Some(RateLimitConfig(5, 15))
    else if action == "register" then Some(RateLimitConfig(3, 60))
    else if action == "sync" then Some(RateLimitConfig(10, 5))
    else if action == "api_call" then Some(RateLimitConfig(100, 1))
    else None
  }

  datatype RateKey = RateKey(identifier: string, action: string)

  datatype RateLimitRow = RateLimitRow(count: int, windowStart: int)

  /** The step of `checkRateLimit` at which the database throws, if any. */
  datatype Outage = NoOutage | EvictThrows | LookupThrows | WriteThrows

  /** The answer of `checkRateLimit` together with the table it leaves. */
  datatype CheckOutcome = CheckOutcome(allowed: bool, resetTime: Option<int>, rows: map<RateKey, RateLimitRow>)

  /** The start of the window that ends now. */
  function WindowStart(config: RateLimitConfig, now: int): int
  {
    now - config.windowMinutes * MinuteMs
  }

  /** The clean-up: the rows of `action` that started before `windowStart` are deleted. */
  function Evict(rows: map<RateKey, RateLimitRow>, action: string, windowStart: int): (r: map<RateKey, RateLimitRow>)
    ensures forall k :: k in r <==> k in rows && !(k.action == action && rows[k].windowStart < windowStart)
    ensures forall k :: k in r ==> r[k] == rows[k]
  {
    map k | k in rows && !(k.action == action && rows[k].windowStart < windowStart) :: rows[k]
  }

  /** The clean-up as written: every row, of any action, that started before `windowStart` is deleted. */
  function AsWrittenEvict(rows: map<RateKey, RateLimitRow>, windowStart: int): (r: map<RateKey, RateLimitRow>)
    ensures forall k :: k in r <==> k in rows && rows[k].windowStart >= windowStart
  {
    map k | k in rows && rows[k].windowStart >= windowStart :: rows[k]
  }

  /** The decision and the table update after the clean-up, given the rows that survived it. */
  function Decide(evicted: map<RateKey, RateLimitRow>, key: RateKey, config: RateLimitConfig, now: int, outage: Outage): CheckOutcome
  {
    if key !in evicted then
      CheckOutcome(true, None, if outage == WriteThrows then evicted else evicted[key := RateLimitRow(1, now)])
    else if evicted[key].count >= config.maxAttempts then
      CheckOutcome(false, Some(evicted[key].windowStart + config.windowMinutes * MinuteMs), evicted)
    else
      CheckOutcome(true, None, if outage == WriteThrows then evicted else evicted[key := evicted[key].(count := evicted[key].count + 1)])
  }

  /** `checkRateLimit` for a request of `identifier` doing `action` at time `now`. */
  function CheckSpec(rows: map<RateKey, RateLimitRow>, identifier: string, action: string, now: int, outage: Outage): CheckOutcome
  {
    match RateLimits(action)
    case None => CheckOutcome(true, None, rows)
    case Some(config) =>
      if outage == EvictThrows then CheckOutcome(true, None, rows)
      else
        var evicted := Evict(rows, action, WindowStart(config, now));
        if outage == LookupThrows then CheckOutcome(true, None, evicted)
        else Decide(evicted, RateKey(identifier, action), config, now, outage)
  }

  /** The same with the clean-up as written. */
  function AsWrittenCheck(rows: map<RateKey, RateLimitRow>, identifier: string, action: string, now: int): CheckOutcome
  {
    match RateLimits(action)
    case None => CheckOutcome(true, None, rows)
    case Some(config) =>
      Decide(AsWrittenEvict(rows, WindowStart(config, now)), RateKey(identifier, action), config, now, NoOutage)
  }

  /** No row counts past its action's maximum. */
  ghost predicate CountsBounded(rows: map<RateKey, RateLimitRow>)
  {
    forall k :: k in rows ==> RateLimits(k.action).Some? && 1 <= rows[k].count <= RateLimits(k.action).value.maxAttempts
  }

  // ---------------------------------------------------------------------
  // Properties of one check
  // ---------------------------------------------------------------------

  /** An action without a configuration is always allowed and leaves the table alone. */
  lemma UnconfiguredIsAllowed(rows: map<RateKey, RateLimitRow>, identifier: string, action: string, now: int, outage: Outage)
    requires RateLimits(action).None?
    ensures CheckSpec(rows, identifier, action, now, outage) == CheckOutcome(true, None, rows)
  {
  }

  /**
   * A database that throws before the row is read lets the request through
   * (fail open); a throwing write is covered by `DeniedIff`.
   */
  lemma FailOpen(rows: map<RateKey, RateLimitRow>, identifier: string, action: string, now: int, outage: Outage)
    requires outage == EvictThrows || outage == LookupThrows
    ensures CheckSpec(rows, identifier, action, now, outage).allowed
    ensures CheckSpec(rows, identifier, action, now, outage).resetTime.None?
  {
  }

  /**
   * After a check that got past the clean-up, no row of the action that
   * started before the window is left, and rows of other actions are as they were.
   */
  lemma StaleRowsEvicted(rows: map<RateKey, RateLimitRow>, identifier: string, action: string, now: int, outage: Outage)
    requires RateLimits(action).Some? && outage != EvictThrows
    ensures var after := CheckSpec(rows, identifier, action, now, outage).rows;
      && (forall k :: k in after && k.action == action ==> after[k].windowStart >= WindowStart(RateLimits(action).value, now))
      && (forall k :: k in rows && k.action != action ==> k in after && after[k] == rows[k])
  {
  }

  /** The first request of a window inserts a row counting one and is allowed. */
  lemma FirstRequestInserts(rows: map<RateKey, RateLimitRow>, identifier: string, action: string, now: int)
    requires RateLimits(action).Some?
    requires var key := RateKey(identifier, action);
      key !in rows || rows[key].windowStart < WindowStart(RateLimits(action).value, now)
    ensures var outcome := CheckSpec(rows, identifier, action, now, NoOutage);
      && outcome.allowed
      && outcome.rows[RateKey(identifier, action)] == RateLimitRow(1, now)
  {
  }

  /** At the maximum the request is denied until the window's end, and the count does not move. */
  lemma DeniedAtMaximum(rows: map<RateKey, RateLimitRow>, identifier: string, action: string, now: int, outage: Outage)
    requires RateLimits(action).Some? && (outage == NoOutage || outage == WriteThrows)
    requires var key := RateKey(identifier, action); var config := RateLimits(action).value;
      key in rows && rows[key].windowStart >= WindowStart(config, now) && rows[key].count >= config.maxAttempts
    ensures var key := RateKey(identifier, action); var config := RateLimits(action).value;
      var outcome := CheckSpec(rows, identifier, action, now, outage);
      && !outcome.allowed
      && outcome.resetTime == Some(rows[key].windowStart + config.windowMinutes * MinuteMs)
      && outcome.rows[key] == rows[key]
  {
  }

  /** Below the maximum the request is allowed and counted once. */
  lemma CountedBelowMaximum(rows: map<RateKey, RateLimitRow>, identifier: string, action: string, now: int)
    requires RateLimits(action).Some?
    requires var key := RateKey(identifier, action); var config := RateLimits(action).value;
      key in rows && rows[key].windowStart >= WindowStart(config, now) && rows[key].count < config.maxAttempts
    ensures var key := RateKey(identifier, action);
      var outcome := CheckSpec(rows, identifier, action, now, NoOutage);
      && outcome.allowed
      && outcome.rows[key] == rows[key].(count := rows[key].count + 1)
  {
  }

  /** A request is denied exactly when its pair already counted the maximum within the window and the database answered. */
  lemma DeniedIff(rows: map<RateKey, RateLimitRow>, identifier: string, action: string, now: int, outage: Outage)
    ensures var key := RateKey(identifier, action);
      !CheckSpec(rows, identifier, action, now, outage).allowed <==>
        && RateLimits(action).Some?
        && (outage == NoOutage || outage == WriteThrows)
        && key in rows
        && rows[key].windowStart >= WindowStart(RateLimits(action).value, now)
        && rows[key].count >= RateLimits(action).value.maxAttempts
  {
  }

  /** No check pushes a count past its maximum. */
  lemma CheckKeepsCountsBounded(rows: map<RateKey, RateLimitRow>, identifier: string, action: string, now: int, outage: Outage)
    requires CountsBounded(rows)
    ensures CountsBounded(CheckSpec(rows, identifier, action, now, outage).rows)
  {
    var config := RateLimits(action);
    if config.Some? && outage != EvictThrows {
      var evicted := Evict(rows, action, WindowStart(config.value, now));
      EvictKeepsCountsBounded(rows, action, WindowStart(config.value, now));
      if outage != LookupThrows {
        DecideKeepsCountsBounded(evicted, RateKey(identifier, action), config.value, now, outage);
      }
    }
  }

  /** The clean-up only deletes rows. */
  lemma EvictKeepsCountsBounded(rows: map<RateKey, RateLimitRow>, action: string, windowStart: int)
    requires CountsBounded(rows)
    ensures CountsBounded(Evict(rows, action, windowStart))
  {
  }

  /** Inserting a row of one, or counting a row still below its maximum, keeps every count within bounds. */
  lemma DecideKeepsCountsBounded(evicted: map<RateKey, RateLimitRow>, key: RateKey, config: RateLimitConfig, now: int, outage: Outage)
    requires CountsBounded(evicted) && RateLimits(key.action) == Some(config)
    ensures CountsBounded(Decide(evicted, key, config, now, outage).rows)
  {
    var after := Decide(evicted, key, config, now, outage).rows;
    forall k | k in after
      ensures RateLimits(k.action).Some? && 1 <= after[k].count <= RateLimits(k.action).value.maxAttempts
    {
      if k != key {
        assert k in evicted && after[k] == evicted[k];
      }
    }
  }

  /**
   * As written, the clean-up of one action deletes the rows of every other
   * action with the shorter window: a check for "login" twenty minutes
   * after three registrations wipes the register row, and a fourth
   * registration within the hour is allowed.
   */
  lemma AsWrittenEvictionResetsOtherActions()
    ensures var registered := map[RateKey("ip", "register") := RateLimitRow(3, 0)];
      var afterLogin := AsWrittenCheck(registered, "ip", "login", 20 * MinuteMs).rows;
      && !CheckSpec(registered, "ip", "register", 21 * MinuteMs, NoOutage).allowed
      && AsWrittenCheck(afterLogin, "ip", "register", 21 * MinuteMs).allowed
      && !CheckSpec(CheckSpec(registered, "ip", "login", 20 * MinuteMs, NoOutage).rows, "ip", "register", 21 * MinuteMs, NoOutage).allowed
  {
    var registered := map[RateKey("ip", "register") := RateLimitRow(3, 0)];
    var afterLogin := AsWrittenCheck(registered, "ip", "login", 20 * MinuteMs).rows;
    assert RateKey("ip", "register") !in AsWrittenEvict(registered, WindowStart(RateLimitConfig(5, 15), 20 * MinuteMs));
    assert RateKey("ip", "register") !in afterLogin;
    var afterLoginFixed := CheckSpec(registered, "ip", "login", 20 * MinuteMs, NoOutage).rows;
    assert RateKey("ip", "register") in Evict(registered, "login", WindowStart(RateLimitConfig(5, 15), 20 * MinuteMs));
    assert afterLoginFixed[RateKey("ip", "register")] == RateLimitRow(3, 0);
  }

  /** `resetRateLimit`: every row of the pair goes (nothing changes when the database throws). */
  function ResetSpec(rows: map<RateKey, RateLimitRow>, identifier: string, action: string, throws: bool): (r: map<RateKey, RateLimitRow>)
    ensures !throws ==> RateKey(identifier, action) !in r
    ensures forall k :: k != RateKey(identifier, action) ==> (k in r <==> k in rows) && (k in r ==> r[k] == rows[k])
  {
    if throws then rows else rows - {RateKey(identifier, action)}
  }

  /** After a reset the next request of the pair starts a new window. */
  lemma ResetStartsNewWindow(rows: map<RateKey, RateLimitRow>, identifier: string, action: string, now: int)
    requires RateLimits(action).Some?
    ensures var outcome := CheckSpec(ResetSpec(rows, identifier, action, false), identifier, action, now, NoOutage);
      outcome.allowed && outcome.rows[RateKey(identifier, action)] == RateLimitRow(1, now)
  {
  }

  // ---------------------------------------------------------------------
  // The table
  // ---------------------------------------------------------------------

  class RateLimitTable {
    var rows: map<RateKey, RateLimitRow>

    ghost predicate Valid()
      reads this
    {
      CountsBounded(rows)
    }

    constructor()
      ensures Valid() && rows == map[]
    {
      rows := map[];
    }

    /** `RateLimiter.checkRateLimit`: clean up, then insert, deny or count. */
    method CheckRateLimit(identifier: string, action: string, now: int, outage: Outage) returns (allowed: bool, resetTime: Option<int>)
      requires Valid()
      modifies this
      ensures Valid()
      ensures var outcome := CheckSpec(old(rows), identifier, action, now, outage);
        allowed == outcome.allowed && resetTime == outcome.resetTime && rows == outcome.rows
    {
      CheckKeepsCountsBounded(rows, identifier, action, now, outage);
      var config := RateLimits(action);
      if config.None? {
        return true, None;
      }
      var windowStart := WindowStart(config.value, now);
      if outage == EvictThrows {
        return true, None;
      }
      rows := Evict(rows, action, windowStart);
      if outage == LookupThrows {
        return true, None;
      }
      allowed, resetTime := DecideAndRecord(RateKey(identifier, action), config.value, now, outage);
    }

    /** The part of `checkRateLimit` after the clean-up: insert a first row, deny at the maximum, or count. */
    method DecideAndRecord(key: RateKey, config: RateLimitConfig, now: int, outage: Outage) returns (allowed: bool, resetTime: Option<int>)
      modifies this
      ensures var outcome := Decide(old(rows), key, config, now, outage);
        allowed == outcome.allowed && resetTime == outcome.resetTime && rows == outcome.rows
    {
      if key !in rows {
        if outage != WriteThrows {
          rows := rows[key := RateLimitRow(1, now)];
        }
        return true, None;
      }
      var existing := rows[key];
      if existing.count >= config.maxAttempts {
        return false, Some(existing.windowStart + config.windowMinutes * MinuteMs);
      }
      if outage != WriteThrows {
        rows := rows[key := existing.(count := existing.count + 1)];
      }
      return true, None;
    }

    /** `RateLimiter.resetRateLimit`. */
    method ResetRateLimit(identifier: string, action: string, throws: bool)
      requires Valid()
      modifies this
      ensures Valid()
      ensures rows == ResetSpec(old(rows), identifier, action, throws)
    {
      if !throws {
        rows := rows - {RateKey(identifier, action)};
      }
    }
  }
}
