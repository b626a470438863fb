/**
 * `rate_limit(limit, interval)`: a sliding-window limiter that keeps, per
 * user, the times of the calls it admitted. The clock reading `time.time()`
 * arrives as the parameter `now`.
 */
module RateLimit {

  /** `[t for t in stamps if now - t < interval]`. */
  function Prune(stamps: seq<real>, now: real, interval: int): (kept: seq<real>)
    ensures |kept| <= |stamps|
    ensures forall t :: t in kept <==> t in stamps && now - t < interval as real
  {
    if stamps == [] then []
    else (if now - stamps[0] < interval as real then [stamps[0]] else []) + Prune(stamps[1..], now, interval)
  }

  /** Pruning works element by element, so it keeps the original order. */
  lemma {:induction false} PruneConcat(a: seq<real>, b: seq<real>, now: real, interval: int)
    ensures Prune(a + b, now, interval) == Prune(a, now, interval) + Prune(b, now, interval)
  {
    if a != [] {
      assert (a + b)[1..] == a[1..] + b;
      PruneConcat(a[1..], b, now, interval);
    } else {
      assert a + b == b;
    }
  }

  /** Timestamps that are all recent survive pruning unchanged. */
  lemma {:induction false} PruneKeepsRecent(stamps: seq<real>, now: real, interval: int)
    requires forall i :: 0 <= i < |stamps| ==> now - stamps[i] < interval as real
    ensures Prune(stamps, now, interval) == stamps
  {
    if stamps != [] {
      PruneKeepsRecent(stamps[1..], now, interval);
    }
  }

  /** Pruning twice at the same moment is pruning once. */
  lemma {:induction false} PruneIdempotent(stamps: seq<real>, now: real, interval: int)
    ensures Prune(Prune(stamps, now, interval), now, interval) == Prune(stamps, now, interval)
  {
    var kept := Prune(stamps, now, interval);
    forall i | 0 <= i < |kept| ensures now - kept[i] < interval as real {
      assert kept[i] in kept;
    }
    PruneKeepsRecent(kept, now, interval);
  }

  /**
   * One call: admitted when fewer than `limit` recent calls remain, and the
   * list stored afterwards (the pruned list, with `now` appended on admission).
   */
  function Admit(stamps: seq<real>, now: real, limit: int, interval: int): (r: (bool, seq<real>))
    ensures var recent := Prune(stamps, now, interval);
            && |r.1| == |recent| + (if r.0 then 1 else 0)
            && r.1[..|recent|] == recent
    ensures r.0 ==> |r.1| <= limit && r.1[|r.1| - 1] == now
    ensures !r.0 ==> |r.1| >= limit
  {
    var recent := Prune(stamps, now, interval);
    if |recent| >= limit then (false, recent) else (true, recent + [now])
  }

  /** The largest number of stored timestamps the limiter ever keeps for one user. */
  function Cap(limit: int): nat {
    if limit < 0 then 0 else limit
  }

  /** A call keeps a user's list within the limit if it was within the limit before. */
  lemma AdmitKeepsBound(stamps: seq<real>, now: real, limit: int, interval: int)
    requires |stamps| <= Cap(limit)
    ensures |Admit(stamps, now, limit, interval).1| <= Cap(limit)
  {
  }

  /** The number of calls admitted when one user calls at the times `nows`. */
  function CountAdmitted(stamps: seq<real>, nows: seq<real>, limit: int, interval: int): nat
    decreases |nows|
  {
    if nows == [] then 0
    else
      var (ok, next) := Admit(stamps, nows[0], limit, interval);
      (if ok then 1 else 0) + CountAdmitted(next, nows[1..], limit, interval)
  }

  predicate InWindow(times: seq<real>, start: real, interval: int) {
    forall i :: 0 <= i < |times| ==> start <= times[i] < start + interval as real
  }

  /**
   * The general form of the window bound: `admitted` are the calls already
   * admitted inside the window, stored after the older entries `older`.
   */
  lemma {:induction false} WindowBound(older: seq<real>, admitted: seq<real>, nows: seq<real>,
                                       start: real, limit: int, interval: int)
    requires InWindow(admitted, start, interval) && InWindow(nows, start, interval)
    ensures |admitted| + CountAdmitted(older + admitted, nows, limit, interval) <= if |admitted| > limit then |admitted| else Cap(limit)
    decreases |nows|
  {
    if nows != [] {
      var now := nows[0];
      PruneConcat(older, admitted, now, interval);
      PruneKeepsRecent(admitted, now, interval);
      var recent := Prune(older, now, interval) + admitted;
      assert InWindow(nows[1..], start, interval);
      if |recent| < limit {
        assert recent + [now] == Prune(older, now, interval) + (admitted + [now]);
        WindowBound(Prune(older, now, interval), admitted + [now], nows[1..], start, limit, interval);
      } else {
        WindowBound(Prune(older, now, interval), admitted, nows[1..], start, limit, interval);
      }
    }
  }

  /** Whatever a user's history, at most `limit` of their calls inside one window of length `interval` are admitted. */
  lemma AtMostLimitPerWindow(stamps: seq<real>, nows: seq<real>, start: real, limit: int, interval: int)
    requires InWindow(nows, start, interval)
    ensures CountAdmitted(stamps, nows, limit, interval) <= Cap(limit)
  {
    assert stamps + [] == stamps;
    WindowBound(stamps, [], nows, start, limit, interval);
  }

  /** The closure state of one `rate_limit(limit, interval)` decorator. */
  class RateLimiter {
    const limit: int
    const interval: int
    /** `user_timestamps`: a defaultdict(list) from user id to admitted call times. */
    var userTimestamps: map<int, seq<real>>

    constructor (limit: int, interval: int)
      ensures this.limit == limit && this.interval == interval
      ensures userTimestamps == map[]
    {
      this.limit := limit;
      this.interval := interval;
      userTimestamps := map[];
    }

    /** The defaultdict's view: a missing user has an empty list. */
    function Stamps(user: int): seq<real>
      reads this
    {
      if user in userTimestamps then userTimestamps[user] else []
    }

    /** No user has more stored timestamps than the limit allows. */
    ghost predicate Bounded()
      reads this
    {
      forall u :: u in userTimestamps ==> |userTimestamps[u]| <= Cap(limit)
    }

    /** The wrapper: prune the caller's list, then admit and record `now`, or refuse. */
    method Request(user: int, now: real) returns (admitted: bool)
      modifies this
      ensures (admitted, Stamps(user)) == Admit(old(Stamps(user)), now, limit, interval)
      ensures userTimestamps == old(userTimestamps)[user := Stamps(user)]
      ensures old(Bounded()) ==> Bounded()
    {
      var recent := Prune(Stamps(user), now, interval);
      userTimestamps := userTimestamps[user := recent];
      if |recent| >= limit {
        return false;
      }
      userTimestamps := userTimestamps[user := userTimestamps[user] + [now]];
      admitted := true;
    }
  }
}
