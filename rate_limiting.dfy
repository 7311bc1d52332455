/** The per-client request limiter that sits in front of every endpoint.
    For each client key it keeps the arrival times of the requests it let
    through; on each request it drops the times older than the window,
    refuses the request when the client already has `maxRequests` times in
    the window, and otherwise records the new time. The clock is the
    parameter `now`, one reading per request. */
module RateLimiting {
  import opened Wrappers
  import opened Models
  import opened Text

  const DefaultMaxRequests := 100
  const DefaultTimeWindowMinutes := 1
  const TooManyRequestsStatus := 429
  const TooManyRequestsBody := "{\"success\":false,\"message\":\"Too many requests. Please try again later.\"}"

  /** Swagger and the health check are never limited. */
  predicate IsSkipEndpoint(path: string) {
    StartsWithSegments(path, "/swagger") || StartsWithSegments(path, "/health")
  }

  /** The client's key: its remote address, or "unknown" when there is none. */
  function ClientKey(remoteIp: Option<string>): (key: string)
    ensures remoteIp.Some? ==> key == remoteIp.value
    ensures remoteIp.None? ==> key == "unknown"
  {
    if remoteIp.Some? then remoteIp.value else "unknown"
  }

  // ---- One client's list of times ----

  /** The times of `ts` at or after `cutoff`, in their order: what
      `RemoveAll(t => t < cutoff)` leaves. */
  function Recent(ts: seq<Time>, cutoff: Time): (r: seq<Time>)
    ensures |r| <= |ts|
    ensures forall t {:trigger t in r} :: t in r <==> t in ts && cutoff <= t
    decreases |ts|
  {
    if ts == [] then []
    else
      var init := ts[..|ts| - 1];
      assert ts == init + [ts[|ts| - 1]];
      if ts[|ts| - 1] < cutoff then Recent(init, cutoff) else Recent(init, cutoff) + [ts[|ts| - 1]]
  }

  lemma RecentSnoc(ts: seq<Time>, t: Time, cutoff: Time)
    ensures Recent(ts + [t], cutoff) == Recent(ts, cutoff) + (if t < cutoff then [] else [t])
  {
    assert (ts + [t])[..|ts|] == ts;
  }

  /** Cleaning up with a later cutoff forgets the earlier cleanup. */
  lemma {:induction false} RecentOfRecent(ts: seq<Time>, early: Time, late: Time)
    requires early <= late
    ensures Recent(Recent(ts, early), late) == Recent(ts, late)
    decreases |ts|
  {
    if ts != [] {
      var init, t := ts[..|ts| - 1], ts[|ts| - 1];
      assert ts == init + [t];
      RecentOfRecent(init, early, late);
      RecentSnoc(init, t, early);
      RecentSnoc(init, t, late);
      if t >= early {
        RecentSnoc(Recent(init, early), t, late);
      }
    }
  }

  /** What the dictionary holds for a key: nothing, or a list of times. */
  function Stored(entry: Option<seq<Time>>): seq<Time> {
    if entry.Some? then entry.value else []
  }

  /** `CleanupOldRequests` on one entry: the old times go, and an entry left
      empty is removed. */
  function Cleaned(entry: Option<seq<Time>>, cutoff: Time): (c: Option<seq<Time>>)
    ensures Stored(c) == Recent(Stored(entry), cutoff)
    ensures c.Some? ==> entry.Some? && c.value != []
  {
    if entry.None? then None
    else
      var kept := Recent(entry.value, cutoff);
      if kept == [] then None else Some(kept)
  }

  /** `HasExceededRateLimit` on one entry: an absent key is never over the limit. */
  predicate Exceeded(entry: Option<seq<Time>>, maxRequests: int) {
    entry.Some? && |entry.value| >= maxRequests
  }

  /** How many times a key can hold after an admitted request: `maxRequests`,
      except that a key with no entry is always admitted, so a limit below one
      still lets one request through per window. */
  function Limit(maxRequests: int): nat {
    if maxRequests < 1 then 1 else maxRequests
  }

  /** The effect of one request on its key's entry. */
  datatype Outcome = Outcome(admitted: bool, entry: Option<seq<Time>>)

  /** Clean up, check, then record: the decision of `InvokeAsync` for a
      limited path, and the entry it leaves. */
  function Admit(entry: Option<seq<Time>>, now: Time, maxRequests: int, window: Time): (o: Outcome)
    ensures o.admitted <==> !Exceeded(Cleaned(entry, now - window), maxRequests)
    ensures Stored(o.entry) == Recent(Stored(entry), now - window) + (if o.admitted then [now] else [])
    ensures o.admitted ==> o.entry.Some? && |o.entry.value| <= Limit(maxRequests)
    ensures !o.admitted ==> o.entry.Some? && |o.entry.value| >= maxRequests
  {
    var c := Cleaned(entry, now - window);
    if Exceeded(c, maxRequests) then Outcome(false, c) else Outcome(true, Some(Stored(c) + [now]))
  }

  // ---- The dictionary ----

  function Get(requests: map<string, seq<Time>>, key: string): (e: Option<seq<Time>>)
    ensures e.Some? <==> key in requests
    ensures e.Some? ==> e.value == requests[key]
  {
    if key in requests then Some(requests[key]) else None
  }

  /** Store an entry under `key`, or remove the key when there is none. */
  function Put(requests: map<string, seq<Time>>, key: string, e: Option<seq<Time>>): (m: map<string, seq<Time>>)
    ensures Get(m, key) == e
    ensures forall k {:trigger k in m} :: k != key ==> (k in m <==> k in requests) && (k in m ==> m[k] == requests[k])
  {
    if e.None? then requests - {key} else requests[key := e.value]
  }

  /** The response of the middleware: pass to the next handler, or refuse. */
  datatype Response = Next | Rejected(statusCode: int, contentType: string, body: string)

  class RateLimitingMiddleware {
    var requests: map<string, seq<Time>>
    const maxRequests: int
    const timeWindow: Time

    /** Every key in the dictionary has at least one time. */
    predicate Valid()
      reads this
    {
      forall k :: k in requests ==> requests[k] != []
    }

    constructor (maxRequests: int, timeWindowMinutes: int)
      ensures Valid()
      ensures requests == map[]
      ensures this.maxRequests == maxRequests && timeWindow == timeWindowMinutes * Minute
    {
      requests := map[];
      this.maxRequests := maxRequests;
      timeWindow := timeWindowMinutes * Minute;
    }

    /** `List.RemoveAll(t => t < cutoff)`. */
    static method RemoveAll(ts: seq<Time>, cutoff: Time) returns (kept: seq<Time>)
      ensures kept == Recent(ts, cutoff)
    {
      kept := [];
      var i := 0;
      while i < |ts|
        invariant i <= |ts|
        invariant kept == Recent(ts[..i], cutoff)
      {
        assert ts[..i + 1] == ts[..i] + [ts[i]];
        RecentSnoc(ts[..i], ts[i], cutoff);
        if ts[i] >= cutoff {
          kept := kept + [ts[i]];
        }
        i := i + 1;
      }
      assert ts[..i] == ts;
    }

    method CleanupOldRequests(key: string, now: Time)
      modifies this`requests
      ensures requests == Put(old(requests), key, Cleaned(Get(old(requests), key), now - timeWindow))
    {
      if key !in requests {
        return;
      }
      var kept := RemoveAll(requests[key], now - timeWindow);
      if kept == [] {
        requests := requests - {key};
      } else {
        requests := requests[key := kept];
      }
    }

    predicate HasExceededRateLimit(key: string)
      reads this
    {
      Exceeded(Get(requests, key), maxRequests)
    }

    /** `AddOrUpdate`: a new list holding `now`, or `now` appended. */
    method RecordRequest(key: string, now: Time)
      modifies this`requests
      ensures requests == old(requests)[key := Stored(Get(old(requests), key)) + [now]]
    {
      if key in requests {
        requests := requests[key := requests[key] + [now]];
      } else {
        assert Stored(Get(requests, key)) + [now] == [now];
        requests := requests[key := [now]];
      }
    }

    /** One request: skipped paths pass untouched; otherwise the client's
        entry is cleaned, and the request is either refused with 429 and not
        recorded, or recorded and passed on. No other key changes. */
    method InvokeAsync(path: string, remoteIp: Option<string>, now: Time) returns (response: Response)
      requires Valid()
      modifies this`requests
      ensures Valid()
      ensures IsSkipEndpoint(path) ==> response == Next && requests == old(requests)
      ensures !IsSkipEndpoint(path) ==>
        var o := Admit(Get(old(requests), ClientKey(remoteIp)), now, maxRequests, timeWindow);
        requests == Put(old(requests), ClientKey(remoteIp), o.entry) &&
        response == (if o.admitted then Next else Rejected(TooManyRequestsStatus, "application/json", TooManyRequestsBody))
    {
      if IsSkipEndpoint(path) {
        return Next;
      }
      var key := ClientKey(remoteIp);
      CleanupOldRequests(key, now);
      if HasExceededRateLimit(key) {
        return Rejected(TooManyRequestsStatus, "application/json", TooManyRequestsBody);
      }
      RecordRequest(key, now);
      response := Next;
    }
  }

  // ---- A client's requests over time ----

  /** The state of one key after a run of requests, and the times of the
      requests it let through. */
  datatype Run = Run(entry: Option<seq<Time>>, admitted: seq<Time>)

  /** One client's requests at the given times, from a fresh limiter. */
  function Replay(times: seq<Time>, maxRequests: int, window: Time): (r: Run)
    ensures |Stored(r.entry)| <= Limit(maxRequests)
    ensures |r.admitted| <= |times|
    decreases |times|
  {
    if times == [] then Run(None, [])
    else
      var prev := Replay(times[..|times| - 1], maxRequests, window);
      var o := Admit(prev.entry, times[|times| - 1], maxRequests, window);
      Run(o.entry, prev.admitted + (if o.admitted then [times[|times| - 1]] else []))
  }

  predicate NonDecreasing(times: seq<Time>) {
    forall i, j :: 0 <= i < j < |times| ==> times[i] <= times[j]
  }

  /** The last step of `Replay`. */
  lemma ReplayLast(times: seq<Time>, maxRequests: int, window: Time)
    requires times != []
    ensures var prev := Replay(times[..|times| - 1], maxRequests, window);
            var o := Admit(prev.entry, times[|times| - 1], maxRequests, window);
            Replay(times, maxRequests, window)
              == Run(o.entry, prev.admitted + (if o.admitted then [times[|times| - 1]] else []))
  {
  }

  /** One request, given that the entry holds the admitted times of the
      window of an earlier request. */
  lemma AdmitKeepsRecentAdmitted(entry: Option<seq<Time>>, admitted: seq<Time>, earlier: Time, now: Time,
                                 maxRequests: int, window: Time)
    requires Stored(entry) == Recent(admitted, earlier)
    requires earlier <= now - window && window >= 0
    ensures var o := Admit(entry, now, maxRequests, window);
            Stored(o.entry) == Recent(admitted + (if o.admitted then [now] else []), now - window)
  {
    var o := Admit(entry, now, maxRequests, window);
    RecentOfRecent(admitted, earlier, now - window);
    RecentSnoc(admitted, now, now - window);
    assert Stored(o.entry) == Recent(Stored(entry), now - window) + (if o.admitted then [now] else []);
    if o.admitted {
      assert Recent(admitted + [now], now - window) == Recent(admitted, now - window) + [now];
    } else {
      assert admitted + [] == admitted;
    }
  }

  lemma NonDecreasingInit(times: seq<Time>)
    requires |times| >= 2 && NonDecreasing(times)
    ensures NonDecreasing(times[..|times| - 1])
    ensures times[|times| - 2] <= times[|times| - 1]
  {
    var init := times[..|times| - 1];
    forall i, j | 0 <= i < j < |init| ensures init[i] <= init[j] {
      assert init[i] == times[i] && init[j] == times[j];
    }
  }

  lemma ReplayFirst(now: Time, maxRequests: int, window: Time)
    requires window >= 0
    ensures Stored(Replay([now], maxRequests, window).entry) == Recent(Replay([now], maxRequests, window).admitted, now - window)
  {
    assert [now][..0] == [];
    AdmitKeepsRecentAdmitted(None, [], now - window, now, maxRequests, window);
  }

  /** The request at the end of `times`, given the claim for the ones before it. */
  lemma ReplayStep(times: seq<Time>, maxRequests: int, window: Time)
    requires |times| >= 2 && window >= 0
    requires times[|times| - 2] <= times[|times| - 1]
    requires var prev := Replay(times[..|times| - 1], maxRequests, window);
             Stored(prev.entry) == Recent(prev.admitted, times[|times| - 2] - window)
    ensures Stored(Replay(times, maxRequests, window).entry)
         == Recent(Replay(times, maxRequests, window).admitted, times[|times| - 1] - window)
  {
    var prev := Replay(times[..|times| - 1], maxRequests, window);
    var now := times[|times| - 1];
    var o := Admit(prev.entry, now, maxRequests, window);
    var admitted := prev.admitted + (if o.admitted then [now] else []);
    AdmitKeepsRecentAdmitted(prev.entry, prev.admitted, times[|times| - 2] - window, now, maxRequests, window);
    assert Stored(o.entry) == Recent(admitted, now - window);
    ReplayLast(times, maxRequests, window);
    assert Replay(times, maxRequests, window) == Run(o.entry, admitted);
  }

  /** With the clock moving forward, the limiter holds exactly the admitted
      times that fall in the window ending at the latest request. */
  lemma {:induction false} ReplayHoldsRecentAdmitted(times: seq<Time>, maxRequests: int, window: Time)
    requires times != [] && NonDecreasing(times) && window >= 0
    ensures Stored(Replay(times, maxRequests, window).entry)
         == Recent(Replay(times, maxRequests, window).admitted, times[|times| - 1] - window)
    decreases |times|
  {
    if |times| == 1 {
      assert times == [times[0]];
      ReplayFirst(times[0], maxRequests, window);
    } else {
      var init := times[..|times| - 1];
      NonDecreasingInit(times);
      ReplayHoldsRecentAdmitted(init, maxRequests, window);
      assert init[|init| - 1] == times[|times| - 2];
      ReplayStep(times, maxRequests, window);
    }
  }

  /** The limit itself: in the window ending at any request, at most
      `maxRequests` (at least one) of the client's requests got through. */
  lemma NeverMoreThanLimitInWindow(times: seq<Time>, maxRequests: int, window: Time)
    requires times != [] && NonDecreasing(times) && window >= 0
    ensures |Recent(Replay(times, maxRequests, window).admitted, times[|times| - 1] - window)| <= Limit(maxRequests)
  {
    ReplayHoldsRecentAdmitted(times, maxRequests, window);
  }
}
