/** The app.py routes that own state: each rate-limited route has its own limiter
    (a separate `calls` dictionary per `@rate_limit(...)` decoration), and /share,
    /view/<id> and /api/stats work on the one share store. */
module Server {
  import opened Common
  import opened RateLimit
  import opened Shares
  import opened Validators

  /** The five decorated routes. */
  datatype Route = Upload | Translate | DownloadPdf | SharePost | SubmitContact

  /** An HTTP answer: a success value, or an error status (400, 404, 429). */
  datatype Response<T> = Success(value: T) | Failure(status: int)

  const TooManyRequests := 429
  const BadRequest := 400
  const NotFound := 404

  class App {
    const uploadLimiter: Limiter
    const translateLimiter: Limiter
    const pdfLimiter: Limiter
    const shareLimiter: Limiter
    const contactLimiter: Limiter
    const store: ShareStore

    /** The limiter that guards `route`. */
    function LimiterFor(route: Route): (l: Limiter)
    {
      match route
      case Upload => uploadLimiter
      case Translate => translateLimiter
      case DownloadPdf => pdfLimiter
      case SharePost => shareLimiter
      case SubmitContact => contactLimiter
    }

    /** Each decoration has its own `calls` dictionary. */
    predicate Distinct()
      reads this
    {
      && uploadLimiter != translateLimiter && uploadLimiter != pdfLimiter
      && uploadLimiter != shareLimiter && uploadLimiter != contactLimiter
      && translateLimiter != pdfLimiter && translateLimiter != shareLimiter
      && translateLimiter != contactLimiter
      && pdfLimiter != shareLimiter && pdfLimiter != contactLimiter
      && shareLimiter != contactLimiter
    }

    /** Five distinct limiters with the decorations' parameters, and a valid store. */
    ghost predicate Valid()
      reads this, uploadLimiter, translateLimiter, pdfLimiter, shareLimiter, contactLimiter, store
    {
      && Distinct()
      && uploadLimiter.Valid() && translateLimiter.Valid() && pdfLimiter.Valid()
      && shareLimiter.Valid() && contactLimiter.Valid()
      && uploadLimiter.maxCalls == 5 && uploadLimiter.timeWindow == 60
      && translateLimiter.maxCalls == 10 && translateLimiter.timeWindow == 60
      && pdfLimiter.maxCalls == 5 && pdfLimiter.timeWindow == 60
      && shareLimiter.maxCalls == 10 && shareLimiter.timeWindow == 60
      && contactLimiter.maxCalls == 3 && contactLimiter.timeWindow == 300
      && store.Valid()
    }

    constructor ()
      ensures Valid()
      ensures forall r :: LimiterFor(r).calls == map[]
      ensures store.shares == map[]
    {
      var upload := new Limiter(5, 60);
      var translate := new Limiter(10, 60);
      var pdf := new Limiter(5, 60);
      var share := new Limiter(10, 60);
      var contact := new Limiter(3, 300);
      uploadLimiter, translateLimiter, pdfLimiter := upload, translate, pdf;
      shareLimiter, contactLimiter := share, contact;
      store := new ShareStore();
    }

    /** The `rate_limit` wrapper of `route`: only that route's limiter is consulted
        and updated, so calls to one route never use up another route's allowance. */
    method Gate(route: Route, ip: string, now: int) returns (admitted: bool)
      requires Valid()
      modifies LimiterFor(route)
      ensures Valid()
      ensures admitted <==> |old(LimiterFor(route).Recent(ip, now))| < LimiterFor(route).maxCalls
      ensures LimiterFor(route).calls ==
                old(LimiterFor(route).calls)[ip := if admitted then old(LimiterFor(route).Recent(ip, now)) + [now]
                                                   else old(LimiterFor(route).Recent(ip, now))]
      ensures forall r :: r != route ==> LimiterFor(r).calls == old(LimiterFor(r).calls)
    {
      admitted := LimiterFor(route).Admit(ip, now);
    }

    /** POST /share: rate limit, then the store's share operation. */
    method Share(ip: string, now: int, id: string, request: ShareRequest) returns (resp: Response<string>)
      requires Valid()
      modifies shareLimiter, store
      ensures Valid()
      ensures resp == Failure(TooManyRequests) <==> |old(shareLimiter.Recent(ip, now))| >= 10
      ensures resp == Failure(TooManyRequests) ==> store.shares == old(store.shares)
      ensures resp == Failure(BadRequest) <==>
                |old(shareLimiter.Recent(ip, now))| < 10 && request.summary.GetOr("") == ""
      ensures resp.Success? <==>
                |old(shareLimiter.Recent(ip, now))| < 10 && request.summary.GetOr("") != ""
      ensures shareLimiter.calls ==
                old(shareLimiter.calls)[ip := if resp != Failure(TooManyRequests) then old(shareLimiter.Recent(ip, now)) + [now]
                                              else old(shareLimiter.Recent(ip, now))]
      ensures resp == Failure(BadRequest) ==> store.shares == Swept(old(store.shares), now)
      ensures resp.Success? ==> resp.value == id && store.shares == Swept(old(store.shares), now)[id :=
                Shares.Share(request.summary.GetOr(""), request.keyPoints.GetOr([]),
                             request.language.GetOr("en"), now, 0, now + Day)]
    {
      var admitted := Gate(SharePost, ip, now);
      if !admitted {
        return Failure(TooManyRequests);
      }
      var r := store.ShareSummary(id, request, now);
      if r.Err? {
        return Failure(BadRequest);
      }
      resp := Success(r.value);
    }

    /** GET /view/<id>: not rate limited. */
    method View(id: string, now: int) returns (resp: Response<SharedView>)
      requires Valid()
      modifies store
      ensures Valid()
      ensures resp == Failure(NotFound) <==> id !in Swept(old(store.shares), now)
      ensures resp.Success? <==> id in Swept(old(store.shares), now)
      ensures resp.Success? ==>
        var before := Swept(old(store.shares), now)[id];
        && resp.value.share == before.(views := before.views + 1)
        && resp.value.hoursRemaining == HoursRemaining(before.expiresAt, now)
      ensures store.shares == if resp.Success? then Swept(old(store.shares), now)[id := resp.value.share]
                              else Swept(old(store.shares), now)
    {
      var r := store.ViewShared(id, now);
      if r.None? {
        return Failure(NotFound);
      }
      resp := Success(r.value);
    }

    /** POST /submit-contact: rate limit (3 calls per 300 seconds), then validation. */
    method Contact(ip: string, now: int, form: ContactForm) returns (resp: Response<Contact>)
      requires Valid()
      modifies contactLimiter
      ensures Valid()
      ensures resp == Failure(TooManyRequests) <==> |old(contactLimiter.Recent(ip, now))| >= 3
      ensures resp.Success? <==> |old(contactLimiter.Recent(ip, now))| < 3 && ValidateContact(form).Ok?
      ensures resp == Failure(BadRequest) <==> |old(contactLimiter.Recent(ip, now))| < 3 && ValidateContact(form).Err?
      ensures resp.Success? ==> resp.value == ValidateContact(form).value
      ensures contactLimiter.calls ==
                old(contactLimiter.calls)[ip := if resp != Failure(TooManyRequests) then old(contactLimiter.Recent(ip, now)) + [now]
                                                else old(contactLimiter.Recent(ip, now))]
    {
      var admitted := Gate(SubmitContact, ip, now);
      if !admitted {
        return Failure(TooManyRequests);
      }
      var r := ValidateContact(form);
      if r.Err? {
        return Failure(BadRequest);
      }
      resp := Success(r.value);
    }

    /** GET /api/stats: not rate limited, and reads the store without sweeping it. */
    method Stats(now: int) returns (st: StoreStats)
      requires Valid()
      ensures st.totalShares == |store.shares|
      ensures st.totalViews == TotalViews(store.shares)
      ensures st.activeShares == |ActiveIds(store.shares, now)|
    {
      st := store.Stats(now);
    }
  }
}
