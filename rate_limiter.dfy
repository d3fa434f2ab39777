/**
 * The sliding-window, per-address request limiter. `Admit` is one call of the
 * limiter as a function of the table it works on; `SimpleRateLimiter` holds the
 * table and updates it in place, and its method is proved to do what `Admit`
 * says. The clock reading is an integer parameter `now`.
 */
module RateLimiting {

  /** Address -> timestamps of the requests the limiter remembers for it. */
  type Table = map<string, seq<int>>

  /** The limit and window a caller gets when it passes none. */
  const DefaultLimit := 10
  const DefaultWindow := 60

  /** A timestamp still inside the window that ends at `now`. */
  predicate InWindow(t: int, now: int, window: int) {
    now - t < window
  }

  /** The timestamps still inside the window, in their stored order. */
  function Prune(ts: seq<int>, now: int, window: int): (r: seq<int>)
    ensures |r| <= |ts|
    ensures forall i :: 0 <= i < |r| ==> InWindow(r[i], now, window)
  {
    if ts == [] then []
    else (if InWindow(ts[0], now, window) then [ts[0]] else []) + Prune(ts[1..], now, window)
  }

  /** How many of the timestamps are inside the window, counted from the newest end. */
  function CountInWindow(ts: seq<int>, now: int, window: int): nat {
    if ts == [] then 0
    else CountInWindow(ts[..|ts| - 1], now, window) + (if InWindow(ts[|ts| - 1], now, window) then 1 else 0)
  }

  /** Pruning keeps each timestamp inside the window as often as it was stored, and nothing else. */
  lemma {:induction false} PruneKeepsExactlyRecent(ts: seq<int>, now: int, window: int)
    ensures forall t :: multiset(Prune(ts, now, window))[t] == if InWindow(t, now, window) then multiset(ts)[t] else 0
  {
    if ts != [] {
      PruneKeepsExactlyRecent(ts[1..], now, window);
      assert ts == [ts[0]] + ts[1..];
    }
  }

  /** Pruning a concatenation prunes each part: the stored order is kept. */
  lemma {:induction false} PruneAppend(a: seq<int>, b: seq<int>, now: int, window: int)
    ensures Prune(a + b, now, window) == Prune(a, now, window) + Prune(b, now, window)
  {
    if a == [] {
      assert a + b == b;
    } else {
      var head := if InWindow(a[0], now, window) then [a[0]] else [];
      assert (a + b)[0] == a[0];
      assert (a + b)[1..] == a[1..] + b;
      PruneAppend(a[1..], b, now, window);
      calc {
        Prune(a + b, now, window);
        head + Prune(a[1..] + b, now, window);
        head + (Prune(a[1..], now, window) + Prune(b, now, window));
        (head + Prune(a[1..], now, window)) + Prune(b, now, window);
      }
    }
  }

  /** The pruned list is as long as the number of timestamps inside the window. */
  lemma {:induction false} PruneLengthIsCount(ts: seq<int>, now: int, window: int)
    ensures |Prune(ts, now, window)| == CountInWindow(ts, now, window)
    decreases |ts|
  {
    if ts != [] {
      var front, last := ts[..|ts| - 1], ts[|ts| - 1];
      assert ts == front + [last];
      PruneAppend(front, [last], now, window);
      PruneLengthIsCount(front, now, window);
    }
  }

  /** What the limiter remembers for an address; an address never seen has nothing. */
  function History(requests: Table, ip: string): seq<int> {
    if ip in requests then requests[ip] else []
  }

  /** The answer of one call and the table it leaves behind. */
  datatype Decision = Decision(allowed: bool, requests: Table)

  /**
   * One call of the limiter: the address's history is pruned to the window;
   * if what is left has reached the limit the call is refused, otherwise
   * `now` is appended. Either way the pruned list is stored back.
   */
  function Admit(requests: Table, ip: string, limit: int, window: int, now: int): (d: Decision)
    ensures ip in d.requests && |d.requests[ip]| <= |History(requests, ip)| + 1
    ensures d.allowed ==> |d.requests[ip]| <= limit && d.requests[ip] != [] && d.requests[ip][|d.requests[ip]| - 1] == now
    ensures !d.allowed ==> |d.requests[ip]| >= limit
  {
    var recent := Prune(History(requests, ip), now, window);
    if |recent| >= limit then Decision(false, requests[ip := recent])
    else Decision(true, requests[ip := recent + [now]])
  }

  /**
   * A call is refused exactly when the address already has `limit` or more
   * timestamps inside the window; a refusal stores the pruned list without
   * `now`, an admission stores the pruned list followed by `now`.
   */
  lemma AdmitDecision(requests: Table, ip: string, limit: int, window: int, now: int)
    ensures var d := Admit(requests, ip, limit, window, now);
      && (!d.allowed <==> CountInWindow(History(requests, ip), now, window) >= limit)
      && ip in d.requests
      && d.requests[ip] == Prune(History(requests, ip), now, window) + (if d.allowed then [now] else [])
  {
    PruneLengthIsCount(History(requests, ip), now, window);
  }

  /** Entries for every other address are left exactly as they were. */
  lemma AdmitLeavesOthersAlone(requests: Table, ip: string, limit: int, window: int, now: int)
    ensures var d := Admit(requests, ip, limit, window, now);
      && d.requests.Keys == requests.Keys + {ip}
      && forall other :: other in requests && other != ip ==> d.requests[other] == requests[other]
  {
  }

  /** A first call from an unseen address is admitted whenever the limit is positive. */
  lemma AdmitUnseenAddress(requests: Table, ip: string, limit: int, window: int, now: int)
    requires ip !in requests
    ensures Admit(requests, ip, limit, window, now)
              == if limit > 0 then Decision(true, requests[ip := [now]])
                 else Decision(false, requests[ip := []])
  {
    assert History(requests, ip) == [];
    assert Prune([], now, window) + [now] == [now];
  }

  /** No table entry holds more than `limit` timestamps. */
  ghost predicate Bounded(requests: Table, limit: int) {
    forall ip :: ip in requests ==> |requests[ip]| <= limit
  }

  /** With one fixed, non-negative limit, a call keeps every entry within the limit. */
  lemma AdmitKeepsBound(requests: Table, ip: string, limit: int, window: int, now: int)
    requires limit >= 0 && Bounded(requests, limit)
    ensures Bounded(Admit(requests, ip, limit, window, now).requests, limit)
  {
  }

  /** One request: who made it, the limit its endpoint applies, and when. */
  datatype Call = Call(ip: string, limit: int, now: int)

  /** The table after a sequence of calls, all with the same window. */
  function Replay(requests: Table, calls: seq<Call>, window: int): Table
    decreases |calls|
  {
    if calls == [] then requests
    else
      var c := calls[|calls| - 1];
      Admit(Replay(requests, calls[..|calls| - 1], window), c.ip, c.limit, window, c.now).requests
  }

  /** If every call applies the same limit, no entry ever holds more than that many timestamps. */
  lemma {:induction false} ReplayKeepsBound(calls: seq<Call>, limit: int, window: int)
    requires limit >= 0
    requires forall k :: 0 <= k < |calls| ==> calls[k].limit == limit
    ensures Bounded(Replay(map[], calls, window), limit)
    decreases |calls|
  {
    if calls != [] {
      var c := calls[|calls| - 1];
      ReplayKeepsBound(calls[..|calls| - 1], limit, window);
      AdmitKeepsBound(Replay(map[], calls[..|calls| - 1], window), c.ip, limit, window, c.now);
    }
  }

  /** A call admitted while every stored timestamp is still recent just appends `now`. */
  lemma AdmitRecentHistory(requests: Table, ip: string, limit: int, window: int, now: int)
    requires forall i :: 0 <= i < |History(requests, ip)| ==> InWindow(History(requests, ip)[i], now, window)
    requires |History(requests, ip)| < limit
    ensures Admit(requests, ip, limit, window, now) == Decision(true, requests[ip := History(requests, ip) + [now]])
  {
    PruneAllRecent(History(requests, ip), now, window);
  }

  lemma {:induction false} PruneAllRecent(ts: seq<int>, now: int, window: int)
    requires forall i :: 0 <= i < |ts| ==> InWindow(ts[i], now, window)
    ensures Prune(ts, now, window) == ts
  {
    if ts != [] {
      PruneAllRecent(ts[1..], now, window);
      assert [ts[0]] + ts[1..] == ts;
    }
  }

  /** `n` requests from one address at one instant, all under a limit above `n`, are all remembered. */
  lemma {:induction false} ReplayBurst(ip: string, n: nat, limit: int, window: int, now: int)
    requires n <= limit && window > 0
    ensures Replay(map[], seq(n, _ => Call(ip, limit, now)), window)
              == if n == 0 then map[] else map[ip := seq(n, _ => now)]
  {
    if n > 0 {
      var calls := seq(n, _ => Call(ip, limit, now));
      assert calls[..n - 1] == seq(n - 1, _ => Call(ip, limit, now));
      assert calls[n - 1] == Call(ip, limit, now);
      ReplayBurst(ip, n - 1, limit, window, now);
      var before: Table := if n == 1 then map[] else map[ip := seq(n - 1, _ => now)];
      assert Replay(map[], calls, window) == Admit(before, ip, limit, window, now).requests;
      assert History(before, ip) == seq(n - 1, _ => now);
      AdmitRecentHistory(before, ip, limit, window, now);
      assert seq(n - 1, _ => now) + [now] == seq(n, _ => now);
      assert before[ip := seq(n, _ => now)] == map[ip := seq(n, _ => now)];
    }
  }

  /**
   * One table serves endpoints with different limits, so the bound holds per
   * limit only: six requests admitted under a limit of 20 leave six timestamps,
   * and the next request under a limit of 5 is refused with six still stored.
   */
  lemma SharedTableExceedsSmallerLimit(ip: string)
    ensures var t := Replay(map[], seq(6, _ => Call(ip, 20, 0)), 60);
      && !Admit(t, ip, 5, 60, 0).allowed
      && |Admit(t, ip, 5, 60, 0).requests[ip]| == 6
  {
    ReplayBurst(ip, 6, 20, 60, 0);
    PruneAllRecent(seq(6, _ => 0), 0, 60);
  }

  /** The limiter object: one table shared by every endpoint that applies a limit. */
  class SimpleRateLimiter {
    var requests: Table

    constructor ()
      ensures requests == map[]
    {
      requests := map[];
    }

    /** Admit or refuse a request from `ip` at time `now`; 10 requests per 60 seconds unless told otherwise. */
    method IsAllowed(ip: string, now: int, limit: int := DefaultLimit, window: int := DefaultWindow) returns (allowed: bool)
      modifies this
      ensures Decision(allowed, requests) == Admit(old(requests), ip, limit, window, now)
    {
      if ip !in requests {
        requests := requests[ip := []];
      }
      requests := requests[ip := Prune(requests[ip], now, window)];
      if |requests[ip]| >= limit {
        return false;
      }
      requests := requests[ip := requests[ip] + [now]];
      return true;
    }
  }
}
