/** The usage table (`lrfo_code_usage`): an append-only ledger of validation and
    redemption attempts, the per-IP rate limiter derived from it, and the per-type
    statistics read from it. */
module UsageLedger {
  import opened Php

  /** The `attempt_type` column. */
  datatype AttemptType = Success | Invalid | Exhausted | Expired

  /** One row of the usage table. `codeId` and `userId` are NULL when the source passes a
      falsy id; `at` is the abstract clock reading taken when the row was written. */
  datatype Attempt = Attempt(codeId: Option<nat>, ip: string, kind: AttemptType, userId: Option<nat>, at: int)

  /** The rate-limit settings as `check_rate_limit` reads them: the raw `rate_limit_enabled`
      value (default '1') and the `absint` of `rate_limit_attempts` (default 3) and of
      `rate_limit_window` in minutes (default 60). */
  datatype RateLimitSettings = RateLimitSettings(enabled: Value, attempts: nat, window: nat)

  const DefaultRateLimit := RateLimitSettings(Str("1"), 3, 60)

  /** A row the limiter counts against `ip`: a failed attempt from that address strictly after `since`. */
  predicate CountsAgainst(a: Attempt, ip: string, since: int)
  {
    a.ip == ip && a.kind in {Invalid, Exhausted, Expired} && a.at > since
  }

  /** `SELECT COUNT(*) ... WHERE ip_address = ip AND attempted_at > since AND attempt_type IN (...)`. */
  function FailuresSince(usage: seq<Attempt>, ip: string, since: int): (n: nat)
    ensures n <= |usage|
  {
    if usage == [] then 0
    else FailuresSince(usage[..|usage| - 1], ip, since)
         + (if CountsAgainst(usage[|usage| - 1], ip, since) then 1 else 0)
  }

  /** Reference definition of the same count: the number of matching row positions. */
  function MatchingRows(usage: seq<Attempt>, ip: string, since: int): set<nat>
  {
    set k: nat | k < |usage| && CountsAgainst(usage[k], ip, since)
  }

  lemma {:induction false} FailuresSinceCountsRows(usage: seq<Attempt>, ip: string, since: int)
    ensures FailuresSince(usage, ip, since) == |MatchingRows(usage, ip, since)|
  {
    if usage != [] {
      var init := usage[..|usage| - 1];
      var last := |usage| - 1;
      FailuresSinceCountsRows(init, ip, since);
      var s := MatchingRows(usage, ip, since);
      var s0 := MatchingRows(init, ip, since);
      if CountsAgainst(usage[last], ip, since) {
        assert s == s0 + {last};
        assert last !in s0;
      } else {
        assert s == s0;
      }
    }
  }

  /** Counting is additive over appended rows. */
  lemma {:induction false} FailuresSinceAppend(a: seq<Attempt>, b: seq<Attempt>, ip: string, since: int)
    ensures FailuresSince(a + b, ip, since) == FailuresSince(a, ip, since) + FailuresSince(b, ip, since)
  {
    if b == [] {
      assert a + b == a;
    } else {
      var b' := b[..|b| - 1];
      assert (a + b)[..|a + b| - 1] == a + b';
      assert (a + b)[|a + b| - 1] == b[|b| - 1];
      FailuresSinceAppend(a, b', ip, since);
    }
  }

  /** Success rows never count against the limit. */
  lemma SuccessNeverCounts(usage: seq<Attempt>, s: Attempt, ip: string, since: int)
    requires s.kind == Success
    ensures FailuresSince(usage + [s], ip, since) == FailuresSince(usage, ip, since)
  {
    assert (usage + [s])[..|usage|] == usage;
  }

  /** `check_rate_limit`: never limits an empty address or when the setting is not exactly '1';
      otherwise limits when the failures from `ip` in the trailing window reach the threshold.
      The ledger stamps and the window bound are read from one clock (see `RateLimitedAsWritten`). */
  function IsRateLimited(usage: seq<Attempt>, ip: string, now: int, cfg: RateLimitSettings): bool
  {
    if EmptyString(ip) then false
    else if cfg.enabled != Str("1") then false
    else FailuresSince(usage, ip, now - cfg.window * 60) >= cfg.attempts
  }

  /** The limiter decides exactly as its reference definition over row positions says. */
  lemma RateLimitedIff(usage: seq<Attempt>, ip: string, now: int, cfg: RateLimitSettings)
    ensures IsRateLimited(usage, ip, now, cfg) <==>
      !EmptyString(ip) && cfg.enabled == Str("1") &&
      |MatchingRows(usage, ip, now - cfg.window * 60)| >= cfg.attempts
  {
    FailuresSinceCountsRows(usage, ip, now - cfg.window * 60);
  }

  /** `attempts` failed attempts from one address inside the window make the limiter refuse
      that address, whatever the ledger held before. */
  lemma {:induction false} StrikesLimit(before: seq<Attempt>, strikes: seq<Attempt>, ip: string, now: int, cfg: RateLimitSettings)
    requires !EmptyString(ip) && cfg.enabled == Str("1")
    requires |strikes| >= cfg.attempts
    requires forall k :: 0 <= k < |strikes| ==> CountsAgainst(strikes[k], ip, now - cfg.window * 60)
    ensures IsRateLimited(before + strikes, ip, now, cfg)
  {
    var since := now - cfg.window * 60;
    FailuresSinceAppend(before, strikes, ip, since);
    AllCount(strikes, ip, since);
  }

  lemma {:induction false} AllCount(rows: seq<Attempt>, ip: string, since: int)
    requires forall k :: 0 <= k < |rows| ==> CountsAgainst(rows[k], ip, since)
    ensures FailuresSince(rows, ip, since) == |rows|
  {
    if rows != [] {
      AllCount(rows[..|rows| - 1], ip, since);
    }
  }

  /** Once every failure from `ip` is older than the window, the address is free again. */
  lemma {:induction false} WindowExpires(usage: seq<Attempt>, ip: string, now: int, cfg: RateLimitSettings)
    requires cfg.attempts > 0
    requires forall k :: 0 <= k < |usage| && usage[k].ip == ip ==> usage[k].at <= now - cfg.window * 60
    ensures !IsRateLimited(usage, ip, now, cfg)
  {
    NoneCount(usage, ip, now - cfg.window * 60);
  }

  lemma {:induction false} NoneCount(usage: seq<Attempt>, ip: string, since: int)
    requires forall k :: 0 <= k < |usage| && usage[k].ip == ip ==> usage[k].at <= since
    ensures FailuresSince(usage, ip, since) == 0
  {
    if usage != [] {
      NoneCount(usage[..|usage| - 1], ip, since);
    }
  }

  /** Appending rows never lifts a limit in force at the same instant. */
  lemma LimitPersists(usage: seq<Attempt>, more: seq<Attempt>, ip: string, now: int, cfg: RateLimitSettings)
    requires IsRateLimited(usage, ip, now, cfg)
    ensures IsRateLimited(usage + more, ip, now, cfg)
  {
    FailuresSinceAppend(usage, more, ip, now - cfg.window * 60);
  }

  // ---------------------------------------------------------------- mixed clocks (as written)

  /** `check_rate_limit` as the source actually compares: `attempted_at` was written with
      `current_time('mysql')`, the site-local wall clock (UTC + `offset` seconds), while the bound
      comes from `gmdate(...)` in UTC. Here `usage[k].at` and `nowUtc` are UTC instants. */
  function RateLimitedAsWritten(usage: seq<Attempt>, ip: string, nowUtc: int, offset: int, cfg: RateLimitSettings): bool
  {
    if EmptyString(ip) then false
    else if cfg.enabled != Str("1") then false
    else FailuresSince(LocalStamps(usage, offset), ip, nowUtc - cfg.window * 60) >= cfg.attempts
  }

  /** The rows as stored: every stamp shifted into site-local time. */
  function LocalStamps(usage: seq<Attempt>, offset: int): (r: seq<Attempt>)
    ensures |r| == |usage|
    ensures forall k :: 0 <= k < |usage| ==> r[k] == usage[k].(at := usage[k].at + offset)
  {
    if usage == [] then []
    else LocalStamps(usage[..|usage| - 1], offset) + [usage[|usage| - 1].(at := usage[|usage| - 1].at + offset)]
  }

  /** On a site whose clock is behind UTC by at least the window, no past attempt is ever
      counted, so the limiter never refuses anyone. */
  lemma {:induction false} WestOfUtcNeverLimits(usage: seq<Attempt>, ip: string, nowUtc: int, offset: int, cfg: RateLimitSettings)
    requires cfg.attempts > 0
    requires offset + cfg.window * 60 <= 0
    requires forall k :: 0 <= k < |usage| ==> usage[k].at <= nowUtc
    ensures !RateLimitedAsWritten(usage, ip, nowUtc, offset, cfg)
  {
    var stored := LocalStamps(usage, offset);
    assert forall k :: 0 <= k < |stored| && stored[k].ip == ip ==> stored[k].at <= nowUtc - cfg.window * 60;
    NoneCount(stored, ip, nowUtc - cfg.window * 60);
  }

  /** The concrete case: three invalid attempts from 9.9.9.9 a moment ago, defaults (3 per 60
      minutes), a site at UTC-01:00. One clock limits; the source as written does not. */
  lemma MixedClocksCounterexample(nowUtc: int)
    ensures var a := Attempt(None, "9.9.9.9", Invalid, None, nowUtc);
            IsRateLimited([a, a, a], "9.9.9.9", nowUtc, DefaultRateLimit) &&
            !RateLimitedAsWritten([a, a, a], "9.9.9.9", nowUtc, -3600, DefaultRateLimit)
  {
    var a := Attempt(None, "9.9.9.9", Invalid, None, nowUtc);
    StrikesLimit([], [a, a, a], "9.9.9.9", nowUtc, DefaultRateLimit);
    assert [] + [a, a, a] == [a, a, a];
    WestOfUtcNeverLimits([a, a, a], "9.9.9.9", nowUtc, -3600, DefaultRateLimit);
  }

  // ---------------------------------------------------------------- statistics

  /** The rows `get_usage_stats` groups: all rows for a falsy `codeId`, else that code's rows. */
  predicate InScope(a: Attempt, codeId: nat)
  {
    codeId == 0 || a.codeId == Some(codeId)
  }

  function CountKind(usage: seq<Attempt>, codeId: nat, kind: AttemptType): (n: nat)
    ensures n <= |usage|
  {
    if usage == [] then 0
    else CountKind(usage[..|usage| - 1], codeId, kind)
         + (if InScope(usage[|usage| - 1], codeId) && usage[|usage| - 1].kind == kind then 1 else 0)
  }

  const AllTypes: set<AttemptType> := {Success, Invalid, Exhausted, Expired}

  lemma EveryTypeListed(t: AttemptType)
    ensures t in AllTypes
  {
    match t
    case Success =>
    case Invalid =>
    case Exhausted =>
    case Expired =>
  }

  /** `get_usage_stats`: the four type keys, each with its count (0 when no row has that type). */
  method UsageStats(usage: seq<Attempt>, codeId: nat) returns (stats: map<AttemptType, nat>)
    ensures stats.Keys == AllTypes
    ensures forall t :: t in stats ==> stats[t] == CountKind(usage, codeId, t)
  {
    stats := map[Success := 0, Invalid := 0, Exhausted := 0, Expired := 0];
    var i := 0;
    while i < |usage|
      invariant 0 <= i <= |usage|
      invariant stats.Keys == AllTypes
      invariant forall t :: t in stats ==> stats[t] == CountKind(usage[..i], codeId, t)
    {
      assert usage[..i + 1][..i] == usage[..i];
      var row := usage[i];
      if InScope(row, codeId) {
        EveryTypeListed(row.kind);
        stats := stats[row.kind := stats[row.kind] + 1];
      }
      i := i + 1;
    }
    assert usage[..i] == usage;
  }

  /** The four counts of a code's rows add up to the number of its rows. */
  lemma {:induction false} StatsTotal(usage: seq<Attempt>, codeId: nat)
    ensures CountKind(usage, codeId, Success) + CountKind(usage, codeId, Invalid)
          + CountKind(usage, codeId, Exhausted) + CountKind(usage, codeId, Expired)
         == |set k: nat | k < |usage| && InScope(usage[k], codeId)|
  {
    if usage != [] {
      var init := usage[..|usage| - 1];
      var last := |usage| - 1;
      StatsTotal(init, codeId);
      var s := set k: nat | k < |usage| && InScope(usage[k], codeId);
      var s0 := set k: nat | k < |init| && InScope(init[k], codeId);
      if InScope(usage[last], codeId) {
        assert s == s0 + {last};
      } else {
        assert s == s0;
      }
    }
  }
}
