/** The in-memory share store of app.py: `shared_summaries`, a dictionary from
    share id to record, which /share fills, /view/<id> reads and counts views in,
    `cleanup_old_shares` sweeps, and /api/stats summarises.  Times are whole seconds. */
module Shares {
  import opened Common

  /** `timedelta(hours=24)` in seconds: a share's lifetime. */
  const Day: int := 24 * 60 * 60

  /** One record of `shared_summaries`. */
  datatype Share = Share(summary: string, keyPoints: seq<string>, language: string,
                         createdAt: int, views: nat, expiresAt: int)

  /** `current_time - created_at > timedelta(hours=24)`: strictly more than a day old. */
  predicate Expired(s: Share, now: int) {
    now - s.createdAt > Day
  }

  /** The store once `cleanup_old_shares` has run at `now`. */
  function Swept(m: map<string, Share>, now: int): (r: map<string, Share>)
    ensures forall id :: id in r <==> id in m && !Expired(m[id], now)
    ensures forall id :: id in r ==> r[id] == m[id]
  {
    map id | id in m && !Expired(m[id], now) :: m[id]
  }

  /** A share exactly one day old survives the sweep; one a second older does not. */
  lemma SweepBoundary(m: map<string, Share>, id: string, now: int)
    requires id in m
    ensures now - m[id].createdAt == Day ==> id in Swept(m, now) && Swept(m, now)[id] == m[id]
    ensures now - m[id].createdAt == Day + 1 ==> id !in Swept(m, now)
  {
  }

  /** `sum(s['views'] for s in shared_summaries.values())` */
  ghost function TotalViews(m: map<string, Share>): (total: nat)
    decreases |m|
  {
    if m == map[] then 0
    else
      var id :| id in m;
      assert |(m - {id}).Keys| == |m.Keys - {id}| == |m.Keys| - 1;
      m[id].views + TotalViews(m - {id})
  }

  /** The sum does not depend on the order in which the records are visited. */
  lemma TotalViewsRemove(m: map<string, Share>, id: string)
    requires id in m
    ensures TotalViews(m) == m[id].views + TotalViews(m - {id})
    decreases |m|
  {
    var j :| j in m && TotalViews(m) == m[j].views + TotalViews(m - {j});
    if j != id {
      assert |(m - {j}).Keys| == |m.Keys - {j}| == |m.Keys| - 1;
      TotalViewsRemove(m - {j}, id);
      assert |(m - {id}).Keys| == |m.Keys - {id}| == |m.Keys| - 1;
      TotalViewsRemove(m - {id}, j);
      assert m - {j} - {id} == m - {id} - {j};
    }
  }

  /** Replacing or adding one record changes the total by the difference in views. */
  lemma TotalViewsUpdate(m: map<string, Share>, id: string, s: Share)
    ensures id in m ==> TotalViews(m[id := s]) + m[id].views == TotalViews(m) + s.views
    ensures id !in m ==> TotalViews(m[id := s]) == TotalViews(m) + s.views
  {
    TotalViewsRemove(m[id := s], id);
    if id in m {
      TotalViewsRemove(m, id);
      assert m[id := s] - {id} == m - {id};
    } else {
      assert m[id := s] - {id} == m;
    }
  }

  /** The ids whose `expires_at` is still in the future. */
  function ActiveIds(m: map<string, Share>, now: int): (ids: set<string>)
  {
    set id | id in m && m[id].expiresAt > now
  }

  /** The counts /api/stats reports. */
  datatype StoreStats = StoreStats(totalShares: nat, activeShares: nat, totalViews: nat)

  /** What /view/<id> shows: the record after its view is counted, and the
      whole hours left before it expires. */
  datatype SharedView = SharedView(share: Share, hoursRemaining: int)

  /** Python's `int(x / 3600)`: division truncated toward zero. */
  function HoursRemaining(expiresAt: int, now: int): (h: int)
    ensures expiresAt >= now ==> h * 3600 <= expiresAt - now < (h + 1) * 3600
    ensures expiresAt < now ==> h <= 0 && (h - 1) * 3600 < expiresAt - now <= h * 3600
  {
    var x := expiresAt - now;
    if x >= 0 then x / 3600 else -((-x) / 3600)
  }

  /** A record that survived the sweep has between 0 and 24 whole hours left. */
  lemma {:induction false} HoursRemainingBounds(s: Share, now: int)
    requires s.expiresAt == s.createdAt + Day
    requires !Expired(s, now) && s.createdAt <= now
    ensures 0 <= HoursRemaining(s.expiresAt, now) <= 24
  {
    var h := HoursRemaining(s.expiresAt, now);
    assert h * 3600 <= Day;
  }

  /** The JSON body of /share; a missing key takes the route's default. */
  datatype ShareRequest = ShareRequest(summary: Option<string>, keyPoints: Option<seq<string>>,
                                       language: Option<string>)

  /** /share with no summary answers HTTP 400. */
  datatype ShareError = EmptySummary

  class ShareStore {
    /** `shared_summaries` */
    var shares: map<string, Share>

    /** Every record expires one day after it was created. */
    ghost predicate Valid()
      reads this
    {
      forall id :: id in shares ==> shares[id].expiresAt == shares[id].createdAt + Day
    }

    constructor ()
      ensures Valid() && shares == map[]
    {
      shares := map[];
    }

    /** `cleanup_old_shares`: collect the ids of records more than a day old, then delete them. */
    method CleanupOldShares(now: int)
      requires Valid()
      modifies this
      ensures Valid()
      ensures shares == Swept(old(shares), now)
    {
      var toDelete: seq<string> := [];
      var pending := shares.Keys;
      while pending != {}
        invariant pending <= shares.Keys
        invariant forall id :: id in toDelete <==> id in shares && id !in pending && Expired(shares[id], now)
        invariant forall i, j :: 0 <= i < j < |toDelete| ==> toDelete[i] != toDelete[j]
        decreases pending
      {
        var id :| id in pending;
        if Expired(shares[id], now) {
          toDelete := toDelete + [id];
        }
        pending := pending - {id};
      }
      for i := 0 to |toDelete|
        invariant forall id :: id in shares <==> id in old(shares) && id !in toDelete[..i]
        invariant forall id :: id in shares ==> shares[id] == old(shares)[id]
      {
        assert toDelete[i] !in toDelete[..i];
        assert toDelete[i] in shares;  // `del` never meets a missing key
        shares := shares - {toDelete[i]};
        assert toDelete[..i + 1] == toDelete[..i] + [toDelete[i]];
      }
      assert toDelete[..|toDelete|] == toDelete;
    }

    /** The store operations of /share: sweep, then refuse an empty summary, else store
        a fresh record under `id` (overwriting any record already there). */
    method ShareSummary(id: string, request: ShareRequest, now: int) returns (r: Result<string, ShareError>)
      requires Valid()
      modifies this
      ensures Valid()
      ensures r.Err? <==> request.summary.GetOr("") == ""
      ensures r.Err? ==> shares == Swept(old(shares), now)
      ensures r.Ok? ==> r.value == id && shares == Swept(old(shares), now)[id :=
                Share(request.summary.GetOr(""), request.keyPoints.GetOr([]),
                      request.language.GetOr("en"), now, 0, now + Day)]
    {
      CleanupOldShares(now);
      var summary := request.summary.GetOr("");
      if summary == "" {
        return Err(EmptySummary);
      }
      shares := shares[id := Share(summary, request.keyPoints.GetOr([]),
                                   request.language.GetOr("en"), now, 0, now + Day)];
      r := Ok(id);
    }

    /** The store operations of /view/<id>: sweep, then answer 404 for an unknown id;
        otherwise count one more view of that record and nothing else. */
    method ViewShared(id: string, now: int) returns (r: Option<SharedView>)
      requires Valid()
      modifies this
      ensures Valid()
      ensures r.None? <==> id !in Swept(old(shares), now)
      ensures r.None? ==> shares == Swept(old(shares), now)
      ensures r.Some? ==>
        var before := Swept(old(shares), now)[id];
        && shares == Swept(old(shares), now)[id := before.(views := before.views + 1)]
        && r.value.share == shares[id]
        && r.value.hoursRemaining == HoursRemaining(before.expiresAt, now)
        && r.value.hoursRemaining >= 0
    {
      CleanupOldShares(now);
      if id !in shares {
        return None;
      }
      var s := shares[id].(views := shares[id].views + 1);
      shares := shares[id := s];
      r := Some(SharedView(s, HoursRemaining(s.expiresAt, now)));
    }

    /** /api/stats: the number of records, of records not yet past `expires_at`, and
        the sum of their view counts (the route does not sweep first). */
    method Stats(now: int) returns (st: StoreStats)
      ensures st.totalShares == |shares|
      ensures st.activeShares == |ActiveIds(shares, now)|
      ensures st.totalViews == TotalViews(shares)
    {
      var rest := shares;
      var active, views := 0, 0;
      while rest != map[]
        invariant views + TotalViews(rest) == TotalViews(shares)
        invariant active + |ActiveIds(rest, now)| == |ActiveIds(shares, now)|
        decreases |rest|
      {
        var id :| id in rest;
        TotalViewsRemove(rest, id);
        if rest[id].expiresAt > now {
          assert ActiveIds(rest, now) == ActiveIds(rest - {id}, now) + {id};
          active := active + 1;
        } else {
          assert ActiveIds(rest, now) == ActiveIds(rest - {id}, now);
        }
        views := views + rest[id].views;
        assert |(rest - {id}).Keys| == |rest.Keys - {id}| == |rest.Keys| - 1;
        rest := rest - {id};
      }
      st := StoreStats(|shares|, active, views);
    }
  }

  /** Each successful view adds exactly one to the total /api/stats reports. */
  lemma ViewAddsOneView(m: map<string, Share>, id: string)
    requires id in m
    ensures TotalViews(m[id := m[id].(views := m[id].views + 1)]) == TotalViews(m) + 1
  {
    TotalViewsUpdate(m, id, m[id].(views := m[id].views + 1));
  }
}
