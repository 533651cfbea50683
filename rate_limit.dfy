/** The sliding-window limiter that `rate_limit(max_calls, time_window)` wraps
    around a route (app.py).  Each decorated route owns one `calls` dictionary
    from client address to the times of its admitted calls; a `Limiter` object is
    one such dictionary together with its two parameters. */
module RateLimit {

  /** `[call for call in ts if call > cutoff]`: the entries newer than `cutoff`, in order. */
  function Prune(ts: seq<int>, cutoff: int): (r: seq<int>)
    ensures |r| <= |ts|
    ensures forall t :: t in r <==> t in ts && t > cutoff
    ensures multiset(r) <= multiset(ts)
  {
    if ts == [] then []
    else
      assert ts == [ts[0]] + ts[1..];
      if ts[0] > cutoff then [ts[0]] + Prune(ts[1..], cutoff) else Prune(ts[1..], cutoff)
  }

  /** Pruning distributes over concatenation, so it keeps the original order. */
  lemma {:induction false} PruneAppend(a: seq<int>, b: seq<int>, cutoff: int)
    ensures Prune(a + b, cutoff) == Prune(a, cutoff) + Prune(b, cutoff)
  {
    if a != [] {
      assert (a + b)[0] == a[0] && (a + b)[1..] == a[1..] + b;
      PruneAppend(a[1..], b, cutoff);
    } else {
      assert a + b == b;
    }
  }

  /** Entries already inside the window are all kept. */
  lemma {:induction false} PruneAllRecent(ts: seq<int>, cutoff: int)
    requires forall k :: 0 <= k < |ts| ==> ts[k] > cutoff
    ensures Prune(ts, cutoff) == ts
  {
    if ts != [] {
      PruneAllRecent(ts[1..], cutoff);
      assert ts == [ts[0]] + ts[1..];
    }
  }

  /** Pruning twice against the same cutoff changes nothing more. */
  lemma {:induction false} PruneIdempotent(ts: seq<int>, cutoff: int)
    ensures Prune(Prune(ts, cutoff), cutoff) == Prune(ts, cutoff)
  {
    var r := Prune(ts, cutoff);
    forall k | 0 <= k < |r| ensures r[k] > cutoff {
      assert r[k] in r;
    }
    PruneAllRecent(r, cutoff);
  }

  class Limiter {
    const maxCalls: nat
    const timeWindow: int
    /** `calls`: client address to the times of its admitted calls. */
    var calls: map<string, seq<int>>

    /** No client ever holds more than `maxCalls` stored times. */
    ghost predicate Valid()
      reads this
    {
      forall ip :: ip in calls ==> |calls[ip]| <= maxCalls
    }

    constructor (maxCalls: nat, timeWindow: int)
      ensures Valid()
      ensures this.maxCalls == maxCalls && this.timeWindow == timeWindow
      ensures calls == map[]
    {
      this.maxCalls := maxCalls;
      this.timeWindow := timeWindow;
      calls := map[];
    }

    /** `calls.get(ip, [])` */
    function History(ip: string): (ts: seq<int>)
      reads this
    {
      if ip in calls then calls[ip] else []
    }

    /** The times of `ip`'s calls still inside the window ending at `now`. */
    function Recent(ip: string, now: int): (r: seq<int>)
      reads this
      ensures forall t :: t in r <==> t in History(ip) && t > now - timeWindow
    {
      Prune(History(ip), now - timeWindow)
    }

    /** The wrapper's bookkeeping for one request from `ip` at time `now`.  The
        client's list is replaced by its pruned version whatever happens; the call is
        refused (HTTP 429) when that list already holds `maxCalls` entries, and otherwise
        `now` is appended and the route runs.  No other client's list changes. */
    method Admit(ip: string, now: int) returns (admitted: bool)
      requires Valid()
      modifies this
      ensures Valid()
      ensures admitted <==> |old(Recent(ip, now))| < maxCalls
      ensures calls == old(calls)[ip := if admitted then old(Recent(ip, now)) + [now]
                                                    else old(Recent(ip, now))]
      ensures forall t :: t in calls[ip] ==> t > now - timeWindow || (admitted && t == now)
    {
      var recent := Prune(History(ip), now - timeWindow);
      calls := calls[ip := recent];
      if |recent| >= maxCalls {
        return false;
      }
      calls := calls[ip := calls[ip] + [now]];
      admitted := true;
    }
  }
}
