/**
  The in-memory sliding-window rate limiter: a table from a client identifier
  to the times of its recent requests, a fixed table of per-endpoint limits,
  an adaptive wrapper that halves the limits under load, and the extraction of
  the client address from a request.

  The wall clock is an explicit parameter `now`. Times are whole microseconds,
  the resolution of Python's `datetime`, so the arithmetic on them is exact.
*/
module RateLimiting {
  import opened Builtins
  import Utils

  const MicrosPerSecond: int := 1_000_000

  function Max(a: int, b: int): int
  {
    if a >= b then a else b
  }

  // ===========================================================================
  // Pruning a list of request times

  /** `[t for t in ts if t > cutoff]`: never longer than the input, and every
      time it keeps is after the cutoff. */
  function Prune(ts: seq<int>, cutoff: int): (r: seq<int>)
    ensures |r| <= |ts|
    ensures forall k :: 0 <= k < |r| ==> r[k] > cutoff
  {
    if ts == [] then []
    else
      var last := ts[|ts| - 1];
      Prune(ts[..|ts| - 1], cutoff) + (if last > cutoff then [last] else [])
  }

  /** A time survives pruning exactly when it was there and is after the cutoff. */
  lemma {:induction false} PruneMember(ts: seq<int>, cutoff: int, t: int)
    ensures t in Prune(ts, cutoff) <==> t in ts && t > cutoff
  {
    if ts != [] {
      var init := ts[..|ts| - 1];
      PruneMember(init, cutoff, t);
      assert ts == init + [ts[|ts| - 1]];
    }
  }

  lemma PruneAfter(ts: seq<int>, cutoff: int)
    ensures forall t :: t in Prune(ts, cutoff) ==> t in ts && t > cutoff
  {
    forall t | t in Prune(ts, cutoff)
      ensures t in ts && t > cutoff
    {
      PruneMember(ts, cutoff, t);
    }
  }

  /** Pruning a list extended by one time prunes the list, then keeps the
      time when it is after the cutoff. */
  lemma PruneSnoc(ts: seq<int>, t: int, cutoff: int)
    ensures Prune(ts + [t], cutoff) == Prune(ts, cutoff) + (if t > cutoff then [t] else [])
  {
    assert (ts + [t])[..|ts|] == ts;
  }

  /** Pruning at an earlier cutoff, then at a later one, is pruning at the later one. */
  lemma {:induction false} PruneTwice(ts: seq<int>, early: int, late: int)
    requires early <= late
    ensures Prune(Prune(ts, early), late) == Prune(ts, late)
  {
    if ts != [] {
      var init, last := ts[..|ts| - 1], ts[|ts| - 1];
      PruneTwice(init, early, late);
      var p := Prune(init, early);
      if last > early {
        assert Prune(ts, early) == p + [last];
        PruneSnoc(p, last, late);
      } else {
        assert Prune(ts, early) == p;
      }
    }
  }

  /** `min(ts)` for a non-empty list. */
  function Min(ts: seq<int>): (m: int)
    requires ts != []
    ensures m in ts
    ensures forall t :: t in ts ==> m <= t
  {
    if |ts| == 1 then ts[0]
    else
      var m := Min(ts[..|ts| - 1]);
      assert forall t :: t in ts ==> t in ts[..|ts| - 1] || t == ts[|ts| - 1];
      if ts[|ts| - 1] < m then ts[|ts| - 1] else m
  }

  // ===========================================================================
  // RateLimiter

  class RateLimiter {
    const defaultRequests: int
    const windowSeconds: int
    /** The `defaultdict(list)`: an identifier that is not a key reads as `[]`. */
    var requests: map<string, seq<int>>

    constructor(defaultRequests: int, windowSeconds: int)
      ensures this.defaultRequests == defaultRequests && this.windowSeconds == windowSeconds
      ensures requests == map[]
    {
      this.defaultRequests := defaultRequests;
      this.windowSeconds := windowSeconds;
      requests := map[];
    }

    /** `self.requests[identifier]` */
    function Entry(identifier: string): seq<int>
      reads this
    {
      if identifier in requests then requests[identifier] else []
    }

    /** The start of the window ending at `now`, in microseconds. */
    function WindowStart(now: int): int
    {
      now - windowSeconds * MicrosPerSecond
    }

    /** The requests of `identifier` inside the window ending at `now`. */
    function Live(identifier: string, now: int): seq<int>
      reads this
    {
      Prune(Entry(identifier), WindowStart(now))
    }

    /** is_allowed: prune the identifier's list to the window; the request is
        allowed when fewer than the limit remain, and then `now` is recorded.
        No other identifier's entry changes. */
    method IsAllowed(identifier: string, maxRequests: Option<int>, now: int) returns (allowed: bool)
      modifies this
      ensures var limit := if maxRequests.None? then defaultRequests else maxRequests.value;
        && allowed == (|old(Live(identifier, now))| < limit)
        && requests == old(requests)[identifier := if allowed then old(Live(identifier, now)) + [now] else old(Live(identifier, now))]
      ensures var limit := if maxRequests.None? then defaultRequests else maxRequests.value;
        allowed ==> |requests[identifier]| <= limit
      ensures var limit := if maxRequests.None? then defaultRequests else maxRequests.value;
        |requests[identifier]| <= Max(limit, |old(Entry(identifier))|)
    {
      var limit := if maxRequests.None? then defaultRequests else maxRequests.value;
      var windowStart := now - windowSeconds * MicrosPerSecond;
      var current := if identifier in requests then requests[identifier] else [];
      var pruned := Prune(current, windowStart);
      allowed := |pruned| < limit;
      requests := requests[identifier := if allowed then pruned + [now] else pruned];
    }

    /** get_remaining: prune the identifier's list to the window and report how
        many more requests the default limit admits. */
    method GetRemaining(identifier: string, now: int) returns (remaining: int)
      modifies this
      ensures requests == old(requests)[identifier := old(Live(identifier, now))]
      ensures remaining == Max(0, defaultRequests - |old(Live(identifier, now))|)
      ensures 0 <= remaining
      ensures defaultRequests >= 0 ==> remaining <= defaultRequests
      ensures remaining > 0 <==> |old(Live(identifier, now))| < defaultRequests
    {
      var windowStart := now - windowSeconds * MicrosPerSecond;
      var current := if identifier in requests then requests[identifier] else [];
      requests := requests[identifier := Prune(current, windowStart)];
      remaining := Max(0, defaultRequests - |requests[identifier]|);
    }

    /** get_reset_time: whole seconds until the oldest stored request leaves the
        window, 0 when none is stored. It does not prune; reading a missing
        identifier stores an empty list for it. */
    method GetResetTime(identifier: string, now: int) returns (seconds: int)
      modifies this
      ensures requests == old(requests)[identifier := old(Entry(identifier))]
      ensures old(Entry(identifier)) == [] ==> seconds == 0
      ensures old(Entry(identifier)) != [] ==>
        seconds == Max(0, TruncDiv(Min(old(Entry(identifier))) + windowSeconds * MicrosPerSecond - now, MicrosPerSecond))
      ensures seconds >= 0
      ensures windowSeconds >= 0 && (forall t :: t in old(Entry(identifier)) ==> t <= now) ==> seconds <= windowSeconds
    {
      var current := if identifier in requests then requests[identifier] else [];
      requests := requests[identifier := current];
      if current == [] {
        return 0;
      }
      var oldest := Min(current);
      var resetTime := oldest + windowSeconds * MicrosPerSecond;
      seconds := Max(0, TruncDiv(resetTime - now, MicrosPerSecond));
      if windowSeconds >= 0 && forall t :: t in current ==> t <= now {
        ResetWithinWindow(resetTime - now, windowSeconds);
      }
    }

    /** cleanup_old_entries: prune every list to the last `maxAgeMinutes`
        minutes, then delete the identifiers left with no request. */
    method CleanupOldEntries(maxAgeMinutes: int, now: int)
      modifies this
      ensures Cleaned(old(requests), requests, AgeCutoff(maxAgeMinutes, now))
      ensures forall id :: id in requests ==>
        requests[id] != [] && forall t :: t in requests[id] ==> t > AgeCutoff(maxAgeMinutes, now)
    {
      var cutoff := AgeCutoff(maxAgeMinutes, now);
      ghost var start := requests;
      var keysToRemove: seq<string> := [];
      var pending := requests.Keys;
      while pending != {}
        invariant Pruning(start, requests, pending, keysToRemove, cutoff)
        decreases |pending|
      {
        var id :| id in pending;
        var kept := Prune(requests[id], cutoff);
        PruneOne(start, requests, pending, keysToRemove, cutoff, id);
        requests := requests[id := kept];
        if kept == [] {
          keysToRemove := keysToRemove + [id];
        }
        pending := pending - {id};
      }
      PruningDone(start, requests, keysToRemove, cutoff);
      for i := 0 to |keysToRemove|
        invariant Removing(start, requests, keysToRemove, i, cutoff)
      {
        RemoveOne(start, requests, keysToRemove, i, cutoff);
        requests := requests - {keysToRemove[i]};
      }
      RemovingDone(start, requests, keysToRemove, cutoff);
    }
  }

  /** The oldest time a cleanup at `now` keeps, exclusive. */
  function AgeCutoff(maxAgeMinutes: int, now: int): int
  {
    now - maxAgeMinutes * 60 * MicrosPerSecond
  }

  /** Part way through the pruning pass of a cleanup: the identifiers in
      `pending` still hold their old lists, every other one holds its pruned
      list, and `doomed` holds the visited identifiers whose list became empty. */
  ghost predicate Pruning(start: map<string, seq<int>>, current: map<string, seq<int>>, pending: set<string>,
                          doomed: seq<string>, cutoff: int)
  {
    && pending <= start.Keys
    && current.Keys == start.Keys
    && (forall id :: id in start ==> current[id] == if id in pending then start[id] else Prune(start[id], cutoff))
    && (forall id :: id in doomed <==> id in start && id !in pending && Prune(start[id], cutoff) == [])
  }

  lemma PruneOne(start: map<string, seq<int>>, current: map<string, seq<int>>, pending: set<string>,
                 doomed: seq<string>, cutoff: int, id: string)
    requires Pruning(start, current, pending, doomed, cutoff) && id in pending
    ensures var kept := Prune(current[id], cutoff);
      Pruning(start, current[id := kept], pending - {id}, if kept == [] then doomed + [id] else doomed, cutoff)
  {
    assert current[id] == start[id];
  }

  /** Part way through the deletion pass: every list is pruned, and the first
      `i` doomed identifiers are gone. */
  ghost predicate Removing(start: map<string, seq<int>>, current: map<string, seq<int>>, doomed: seq<string>,
                           i: int, cutoff: int)
  {
    && 0 <= i <= |doomed|
    && (forall id :: id in doomed <==> id in start && Prune(start[id], cutoff) == [])
    && (forall id :: id in current <==> id in start && id !in doomed[..i])
    && (forall id :: id in current ==> current[id] == Prune(start[id], cutoff))
  }

  lemma PruningDone(start: map<string, seq<int>>, current: map<string, seq<int>>, doomed: seq<string>, cutoff: int)
    requires Pruning(start, current, {}, doomed, cutoff)
    ensures Removing(start, current, doomed, 0, cutoff)
  {
  }

  lemma RemoveOne(start: map<string, seq<int>>, current: map<string, seq<int>>, doomed: seq<string>, i: int, cutoff: int)
    requires Removing(start, current, doomed, i, cutoff) && i < |doomed|
    ensures Removing(start, current - {doomed[i]}, doomed, i + 1, cutoff)
  {
    assert forall id :: id in doomed[..i + 1] <==> id in doomed[..i] || id == doomed[i];
  }

  lemma RemovingDone(start: map<string, seq<int>>, current: map<string, seq<int>>, doomed: seq<string>, cutoff: int)
    requires Removing(start, current, doomed, |doomed|, cutoff)
    ensures Cleaned(start, current, cutoff)
    ensures forall id :: id in current ==> current[id] != [] && forall t :: t in current[id] ==> t > cutoff
  {
    assert doomed[..|doomed|] == doomed;
    CleanedAfter(start, current, cutoff);
  }

  /** After a cleanup at `cutoff`: exactly the identifiers with a request after
      the cutoff remain, each holding just those requests, in order. */
  ghost predicate Cleaned(before: map<string, seq<int>>, after: map<string, seq<int>>, cutoff: int)
  {
    && (forall id :: id in after <==> id in before && Prune(before[id], cutoff) != [])
    && (forall id :: id in after ==> id in before && after[id] == Prune(before[id], cutoff))
  }

  /** A cleanup leaves no empty list and no request at or before the cutoff. */
  lemma CleanedAfter(before: map<string, seq<int>>, after: map<string, seq<int>>, cutoff: int)
    requires forall id :: id in after <==> id in before && Prune(before[id], cutoff) != []
    requires forall id :: id in after ==> after[id] == Prune(before[id], cutoff)
    ensures Cleaned(before, after, cutoff)
    ensures forall id :: id in after ==> after[id] != [] && forall t :: t in after[id] ==> t > cutoff
  {
    forall id | id in after
      ensures forall t :: t in after[id] ==> t > cutoff
    {
      PruneAfter(before[id], cutoff);
    }
  }

  /** The whole seconds left before a reset never exceed the window when the
      oldest request is not in the future. */
  lemma ResetWithinWindow(untilReset: int, windowSeconds: int)
    requires windowSeconds >= 0 && untilReset <= windowSeconds * MicrosPerSecond
    ensures Max(0, TruncDiv(untilReset, MicrosPerSecond)) <= windowSeconds
  {
    if untilReset >= 0 {
      assert untilReset / MicrosPerSecond <= windowSeconds * MicrosPerSecond / MicrosPerSecond;
    }
  }

  /** A cleanup that keeps at least the current window changes nothing that
      `is_allowed` or `get_remaining` will see at `now`. */
  lemma CleanupKeepsWindow(ts: seq<int>, maxAgeMinutes: int, windowSeconds: int, now: int)
    requires maxAgeMinutes * 60 >= windowSeconds
    ensures Prune(Prune(ts, AgeCutoff(maxAgeMinutes, now)), now - windowSeconds * MicrosPerSecond)
      == Prune(ts, now - windowSeconds * MicrosPerSecond)
  {
    PruneTwice(ts, AgeCutoff(maxAgeMinutes, now), now - windowSeconds * MicrosPerSecond);
  }

  // ===========================================================================
  // Identifiers and endpoint limits

  /** get_identifier: a truthy user id wins over the address. The prefix says
      which of the two the identifier was made from, and the identifier ends
      with that user id or address. */
  function Identifier(ipAddress: string, userId: Option<string>): (r: string)
    ensures (userId.Some? && userId.value != "") <==> (|r| > 5 && r[..5] == "user_")
    ensures var source := if userId.Some? && userId.value != "" then userId.value else ipAddress;
      |r| >= |source| && r[|r| - |source|..] == source
  {
    if userId.Some? && userId.value != "" then "user_" + userId.value
    else
      var r := "ip_" + ipAddress;
      assert r[0] == 'i';
      r
  }

  /** Distinct users, and distinct addresses, get distinct identifiers, and a
      user identifier never equals an address identifier. */
  lemma IdentifierInjective(ip1: string, user1: Option<string>, ip2: string, user2: Option<string>)
    ensures var byUser1, byUser2 := user1.Some? && user1.value != "", user2.Some? && user2.value != "";
      Identifier(ip1, user1) == Identifier(ip2, user2) <==>
        if byUser1 then byUser2 && user1.value == user2.value
        else !byUser2 && ip1 == ip2
  {
    var byUser1, byUser2 := user1.Some? && user1.value != "", user2.Some? && user2.value != "";
    var a, b := Identifier(ip1, user1), Identifier(ip2, user2);
    if byUser1 && byUser2 {
      assert a == "user_" + user1.value && b == "user_" + user2.value;
      if a == b {
        assert user1.value == a[5..] == b[5..] == user2.value;
      }
    } else if !byUser1 && !byUser2 {
      assert a == "ip_" + ip1 && b == "ip_" + ip2;
      if a == b {
        assert ip1 == a[3..] == b[3..] == ip2;
      }
    } else {
      assert a[0] != b[0];
    }
  }

  /** EndpointRateLimits.get_limit */
  function EndpointLimit(endpoint: string): (limit: int)
    ensures limit in {30, 60, 100, 200}
  {
    if endpoint == "/api/recommendations" then 30
    else if endpoint == "/api/products" then 60
    else if endpoint == "/health" || endpoint == "/api/health" then 200
    else 100
  }

  /** Only the four listed endpoints get a limit other than the default of 100. */
  lemma EndpointLimitDefault(endpoint: string)
    ensures EndpointLimit(endpoint) != 100 <==>
      endpoint in {"/api/recommendations", "/api/products", "/health", "/api/health"}
  {
  }

  // ===========================================================================
  // AdaptiveRateLimiter

  class AdaptiveRateLimiter {
    const baseLimiter: RateLimiter
    const cpuThreshold: real
    const memoryThreshold: real
    var loadFactor: real

    /** The factor is only ever full or halved. */
    predicate Valid()
      reads this
    {
      loadFactor == 1.0 || loadFactor == 0.5
    }

    constructor(baseLimiter: RateLimiter)
      ensures this.baseLimiter == baseLimiter
      ensures cpuThreshold == 80.0 && memoryThreshold == 85.0 && loadFactor == 1.0
      ensures Valid()
    {
      this.baseLimiter := baseLimiter;
      cpuThreshold := 80.0;
      memoryThreshold := 85.0;
      loadFactor := 1.0;
    }

    /** adjust_limits_based_on_load: halve the limits while either reading is
        strictly above its threshold, restore them otherwise. */
    method AdjustLimitsBasedOnLoad(cpuPercent: real, memoryPercent: real)
      modifies this
      ensures loadFactor == if cpuPercent > cpuThreshold || memoryPercent > memoryThreshold then 0.5 else 1.0
      ensures Valid()
    {
      if cpuPercent > cpuThreshold || memoryPercent > memoryThreshold {
        loadFactor := 0.5;
      } else {
        loadFactor := 1.0;
      }
    }

    /** The limit in force for `endpoint`: `int(limit * load_factor)`. */
    function AdjustedLimit(endpoint: string): int
      reads this
    {
      Trunc(EndpointLimit(endpoint) as real * loadFactor)
    }

    /** is_allowed: the base limiter's check with the endpoint's adjusted limit. */
    method IsAllowed(identifier: string, endpoint: string, now: int) returns (allowed: bool)
      modifies baseLimiter
      ensures allowed == (|old(baseLimiter.Live(identifier, now))| < old(AdjustedLimit(endpoint)))
      ensures baseLimiter.requests ==
        old(baseLimiter.requests)[identifier :=
          if allowed then old(baseLimiter.Live(identifier, now)) + [now] else old(baseLimiter.Live(identifier, now))]
    {
      // int(get_limit(endpoint) * load_factor)
      var adjustedLimit := AdjustedLimit(endpoint);
      allowed := baseLimiter.IsAllowed(identifier, Some(adjustedLimit), now);
    }
  }

  /** Under either factor the adjusted limit is the endpoint's limit or its half,
      rounded down; under load it is never above the normal limit. */
  lemma AdjustedLimitValues(limiter: AdaptiveRateLimiter, endpoint: string)
    requires limiter.Valid()
    ensures var limit := EndpointLimit(endpoint);
      limiter.AdjustedLimit(endpoint) == if limiter.loadFactor == 1.0 then limit else limit / 2
    ensures 15 <= limiter.AdjustedLimit(endpoint) <= EndpointLimit(endpoint)
  {
    var limit := EndpointLimit(endpoint);
    if limiter.loadFactor == 0.5 {
      HalfTrunc(limit);
    } else {
      assert limit as real * 1.0 == limit as real;
    }
  }

  lemma HalfTrunc(n: int)
    requires n >= 0
    ensures Trunc(n as real * 0.5) == n / 2
  {
    var q := n / 2;
    assert n as real * 0.5 == q as real + (n % 2) as real * 0.5;
  }

  // ===========================================================================
  // get_client_ip

  /** The parts of a request `get_client_ip` reads: the `X-Forwarded-For`
      header, if any, and the host of the direct client, if any. */
  datatype Request = Request(forwardedFor: Option<string>, clientHost: Option<string>)

  /** get_client_ip: the first address of a non-empty `X-Forwarded-For`
      header, stripped; otherwise the direct client's host, or "unknown". */
  function ClientIp(request: Request): (ip: string)
    ensures request.forwardedFor.Some? && request.forwardedFor.value != "" ==>
      ',' !in ip && (ip == [] || (!IsSpace(ip[0]) && !IsSpace(ip[|ip| - 1])))
  {
    if request.forwardedFor.Some? && request.forwardedFor.value != "" then
      var header := request.forwardedFor.value;
      FirstPiece(header);
      assert ',' !in header[..IndexOf(header, ',')];
      Strip(Utils.SplitOn(',', header)[0])
    else if request.clientHost.Some? then request.clientHost.value
    else "unknown"
  }

  /** The first piece of a comma split is the text before the first comma. */
  lemma FirstPiece(s: string)
    ensures Utils.SplitOn(',', s)[0] == s[..IndexOf(s, ',')]
  {
  }

  /** With a non-empty header the address comes from it: stripped, free of
      commas, and taken from before the first comma. */
  lemma ForwardedAddress(request: Request)
    requires request.forwardedFor.Some? && request.forwardedFor.value != ""
    ensures var header := request.forwardedFor.value;
      var ip := ClientIp(request);
      && ip == Strip(header[..IndexOf(header, ',')])
      && ',' !in ip
      && (ip == [] || (!IsSpace(ip[0]) && !IsSpace(ip[|ip| - 1])))
  {
    var header := request.forwardedFor.value;
    FirstPiece(header);
    var piece := header[..IndexOf(header, ',')];
    assert ',' !in piece;
  }

  /** Without a usable header the direct client decides, and "unknown" stands for none. */
  lemma DirectAddress(request: Request)
    requires request.forwardedFor.None? || request.forwardedFor.value == ""
    ensures ClientIp(request) == if request.clientHost.Some? then request.clientHost.value else "unknown"
  {
  }
}
